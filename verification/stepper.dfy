/** The state record, its initialisation and the single forward-Euler step
    (model/run.py, lines 100-198).

    Both `init_sim` and `gen` evaluate the rates with the module-level
    parameter set, whatever parameters a caller passes, so this module uses
    `Kinetics.Default` throughout. Every division in the source divides by
    the working volume or by a `K + concentration` sum; when one of them is
    exactly zero the source raises a division error, which is modelled as
    the `DivisionByZero` outcome.
 */
module Stepper {
  import opened Outcomes
  import opened Kinetics

  /** Feed flow rates applied during the step that produced a record. */
  datatype Flows = Flows(fGlc: real, fGln: real, fB: real) {
    /** Total inflow, which dilutes every species. */
    function Total(): real {
      fGlc + fGln + fB
    }
  }

  const NoFlow: Flows := Flows(0.0, 0.0, 0.0)

  /** Concentrations of the glucose and glutamine feed streams. */
  datatype Feed = Feed(Glc: real, Gln: real)

  /** One record of the history: time, culture, the flows that produced it
      and the specific rates evaluated on its own culture. */
  datatype State = State(t: real, c: Culture, flows: Flows, rates: Rates)

  /** Horizon and step size used when `gen` is called with its defaults. */
  const DefaultHorizon: real := 250.0
  const DefaultStep: real := 1.0

  /** The stored rates are the rates of the record's own culture. */
  predicate Consistent(s: State) {
    RatesDefined(s.c, Default) && s.rates == AllRates(s.c, Default)
  }

  /** No negative amount anywhere and a non-empty reactor. */
  predicate CultureNonnegative(c: Culture) {
    c.X >= 0.0 && MediumNonnegative(c) && c.P >= 0.0 && c.V > 0.0
  }

  /** A record of a physically sensible culture whose rates are consistent. */
  predicate Physical(s: State) {
    CultureNonnegative(s.c) && Consistent(s)
  }

  /** `init_sim`: the record at time 0 with no flow and all rates evaluated
      on the initial culture. */
  function Init(X0: real, Glc0: real, Gln0: real, Lac0: real, Amm0: real, P0: real, V0: real): (r: Checked<State>)
    ensures r.Ok? <==> RatesDefined(Culture(X0, Glc0, Gln0, Lac0, Amm0, P0, V0), Default)
    ensures r.Ok? ==>
      && r.value.t == 0.0
      && r.value.c == Culture(X0, Glc0, Gln0, Lac0, Amm0, P0, V0)
      && r.value.flows == NoFlow
      && Consistent(r.value)
    ensures r.Ok? && X0 >= 0.0 && P0 >= 0.0 && V0 > 0.0 ==> (Physical(r.value) <==> MediumNonnegative(r.value.c))
  {
    var c := Culture(X0, Glc0, Gln0, Lac0, Amm0, P0, V0);
    if RatesDefined(c, Default) then Ok(State(0.0, c, NoFlow, AllRates(c, Default)))
    else DivisionByZero
  }

  /** The floor that the stepper applies to glucose and glutamine. */
  function ClampAtZero(x: real): (y: real)
    ensures y >= 0.0 && y >= x
    ensures x >= 0.0 ==> y == x
    ensures x < 0.0 ==> y == 0.0
  {
    if x < 0.0 then 0.0 else x
  }

  /** Explicit-Euler update of the viable cells: growth minus death minus
      dilution by the total inflow `F` into volume `V`. */
  function Grown(x: real, mu: real, kD: real, F: real, V: real, dt: real): real
    requires V != 0.0
  {
    x * (1.0 + dt * (mu - kD - F / V))
  }

  /** Explicit-Euler update of a substrate `m` fed by its own stream `fIn` at
      concentration `mIn`, diluted by the other streams `fOther` and taken up
      by `x` cells at specific rate `q`. */
  function Fed(m: real, fIn: real, mIn: real, fOther: real, x: real, q: real, V: real, dt: real): real
    requires V != 0.0
  {
    m + dt * (fIn * (mIn - m) / V - fOther * m / V - x * q)
  }

  /** Explicit-Euler update of a species `m` produced by `x` cells at specific
      rate `q` and diluted by the total inflow `F`. */
  function Produced(m: real, q: real, x: real, F: real, V: real, dt: real): real
    requires V != 0.0
  {
    m + dt * (q * x - F * m / V)
  }

  /** The mass balances of one step of length `dt`, using the rates stored
      with the previous record. Glucose and glutamine are floored at zero;
      lactate, ammonium and product are not. */
  function Balance(prev: State, feed: Feed, f: Flows, dt: real): (c: Culture)
    requires prev.c.V != 0.0
    ensures c.Glc >= 0.0 && c.Gln >= 0.0
    ensures c.V == prev.c.V + dt * f.Total()
  {
    var s := prev.c;
    var r := prev.rates;
    var F := f.Total();
    Culture(
      Grown(s.X, r.mu, r.kD, F, s.V, dt),
      ClampAtZero(Fed(s.Glc, f.fGlc, feed.Glc, f.fGln + f.fB, s.X, r.qGlc, s.V, dt)),
      ClampAtZero(Fed(s.Gln, f.fGln, feed.Gln, f.fGlc + f.fB, s.X, r.qGln, s.V, dt)),
      Produced(s.Lac, r.qLac, s.X, F, s.V, dt),
      Produced(s.Amm, r.qAmm, s.X, F, s.V, dt),
      Produced(s.P, r.qP, s.X, F, s.V, dt),
      s.V + dt * F)
  }

  /** `gen`: one step, or exhaustion once the horizon is reached. The new
      record carries the applied flows and the rates of its own culture. */
  function Step(prev: State, feed: Feed, f: Flows, tMax: real, dt: real): (r: Checked<Option<State>>)
    ensures r == Ok(None) <==> prev.t >= tMax
    ensures r == DivisionByZero <==>
      prev.t < tMax && (prev.c.V == 0.0 || !RatesDefined(Balance(prev, feed, f, dt), Default))
    ensures r.Ok? && r.value.Some? ==>
      var s := r.value.value;
      && s.t == prev.t + dt
      && s.c == Balance(prev, feed, f, dt)
      && s.c.Glc >= 0.0 && s.c.Gln >= 0.0
      && s.c.V == prev.c.V + dt * f.Total()
      && s.flows == f
      && Consistent(s)
  {
    if prev.t >= tMax then Ok(None)
    else if prev.c.V == 0.0 then DivisionByZero
    else
      var c := Balance(prev, feed, f, dt);
      if RatesDefined(c, Default) then Ok(Some(State(prev.t + dt, c, f, AllRates(c, Default))))
      else DivisionByZero
  }

  /** With every flow off the volume is unchanged and each species changes
      only by its cellular term: glucose falls by exactly `dt*X*q_Glc`
      unless that would go negative. */
  lemma ZeroFlowStep(prev: State, feed: Feed, dt: real)
    requires prev.c.V != 0.0
    ensures
      var c := Balance(prev, feed, NoFlow, dt);
      && c.V == prev.c.V
      && c.X == prev.c.X * (1.0 + dt * (prev.rates.mu - prev.rates.kD))
      && c.Glc == ClampAtZero(prev.c.Glc - dt * prev.c.X * prev.rates.qGlc)
      && c.Gln == ClampAtZero(prev.c.Gln - dt * prev.c.X * prev.rates.qGln)
      && c.Lac == prev.c.Lac + dt * prev.rates.qLac * prev.c.X
      && c.Amm == prev.c.Amm + dt * prev.rates.qAmm * prev.c.X
      && c.P == prev.c.P + dt * prev.rates.qP * prev.c.X
  {
    var s := prev.c;
    var r := prev.rates;
    var f := NoFlow;
    var F := f.Total();
    GrownWithoutFlow(s.X, r.mu, r.kD, F, s.V, dt);
    FedWithoutFlow(s.Glc, f.fGlc, feed.Glc, f.fGln + f.fB, s.X, r.qGlc, s.V, dt);
    FedWithoutFlow(s.Gln, f.fGln, feed.Gln, f.fGlc + f.fB, s.X, r.qGln, s.V, dt);
    ProducedWithoutFlow(s.Lac, r.qLac, s.X, F, s.V, dt);
    ProducedWithoutFlow(s.Amm, r.qAmm, s.X, F, s.V, dt);
    ProducedWithoutFlow(s.P, r.qP, s.X, F, s.V, dt);
  }

  lemma GrownWithoutFlow(x: real, mu: real, kD: real, F: real, V: real, dt: real)
    requires V != 0.0 && F == 0.0
    ensures Grown(x, mu, kD, F, V, dt) == x * (1.0 + dt * (mu - kD))
  {
    assert 0.0 / V == 0.0;
  }

  lemma FedWithoutFlow(m: real, fIn: real, mIn: real, fOther: real, x: real, q: real, V: real, dt: real)
    requires V != 0.0 && fIn == 0.0 && fOther == 0.0
    ensures Fed(m, fIn, mIn, fOther, x, q, V, dt) == m - dt * x * q
  {
    assert fIn * (mIn - m) / V == 0.0;
    assert fOther * m / V == 0.0;
    assert dt * (0.0 - 0.0 - x * q) == -(dt * x * q);
  }

  lemma ProducedWithoutFlow(m: real, q: real, x: real, F: real, V: real, dt: real)
    requires V != 0.0 && F == 0.0
    ensures Produced(m, q, x, F, V, dt) == m + dt * q * x
  {
    assert F * m / V == 0.0;
    assert dt * (q * x - 0.0) == dt * q * x;
  }

  /** Non-negative flows never shrink the reactor volume `V + dt*F` that a
      step produces; over a positive step it stays the same exactly when no
      stream flows. */
  lemma VolumeMonotone(v: real, f: Flows, dt: real)
    requires dt > 0.0
    requires f.fGlc >= 0.0 && f.fGln >= 0.0 && f.fB >= 0.0
    ensures v + dt * f.Total() >= v
    ensures v + dt * f.Total() == v <==> f == NoFlow
  {
    if f.Total() > 0.0 {
      assert dt * f.Total() > 0.0;
    }
  }

  /** A species diluted by inflow and produced at a non-negative rate stays
      non-negative when the step dilutes less than the whole reactor. */
  lemma DilutionKeepsNonnegative(m: real, q: real, x: real, F: real, V: real, dt: real)
    requires m >= 0.0 && q >= 0.0 && x >= 0.0 && F >= 0.0 && V > 0.0 && dt >= 0.0
    requires dt * (F / V) <= 1.0
    ensures Produced(m, q, x, F, V, dt) >= 0.0
  {
    var d := F / V;
    assert F * m / V == m * d;
    assert m + dt * (q * x - m * d) == m * (1.0 - dt * d) + dt * (q * x);
    assert m * (1.0 - dt * d) >= 0.0;
    assert dt * (q * x) >= 0.0;
  }

  /** Cells survive a step when death and dilution together remove less
      than the whole population within it. */
  lemma GrowthKeepsNonnegative(x: real, mu: real, kD: real, F: real, V: real, dt: real)
    requires x >= 0.0 && mu >= 0.0 && kD <= StarvationDeath && F >= 0.0 && V > 0.0 && dt >= 0.0
    requires dt * (StarvationDeath + F / V) <= 1.0
    ensures Grown(x, mu, kD, F, V, dt) >= 0.0
  {
    var d := F / V;
    assert dt * mu >= 0.0;
    assert dt * kD <= dt * StarvationDeath;
    assert 1.0 + dt * (mu - kD - d) == 1.0 + dt * mu - dt * kD - dt * d;
    assert 1.0 + dt * (mu - kD - d) >= 1.0 - dt * (StarvationDeath + d);
  }

  /** The mass balances keep a non-negative culture non-negative when the
      stored rates are in range, flows and feeds are non-negative, and death
      plus dilution remove less than the whole culture within the step. */
  lemma BalanceKeepsNonnegative(prev: State, feed: Feed, f: Flows, dt: real)
    requires CultureNonnegative(prev.c) && RatesInRange(prev.rates, Default) && dt >= 0.0
    requires f.fGlc >= 0.0 && f.fGln >= 0.0 && f.fB >= 0.0
    requires dt * (StarvationDeath + f.Total() / prev.c.V) <= 1.0
    ensures CultureNonnegative(Balance(prev, feed, f, dt))
  {
    var s := prev.c;
    var r := prev.rates;
    var F := f.Total();
    assert dt * (F / s.V) <= 1.0 by {
      assert dt * StarvationDeath >= 0.0;
    }
    GrowthKeepsNonnegative(s.X, r.mu, r.kD, F, s.V, dt);
    DilutionKeepsNonnegative(s.Lac, r.qLac, s.X, F, s.V, dt);
    DilutionKeepsNonnegative(s.Amm, r.qAmm, s.X, F, s.V, dt);
    DilutionKeepsNonnegative(s.P, r.qP, s.X, F, s.V, dt);
    assert dt * F >= 0.0;
  }

  /** One step from a physical record with non-negative flows, whose
      death-plus-dilution fraction stays below one, never divides by zero
      and yields a physical record again. */
  lemma StepPreservesPhysical(prev: State, feed: Feed, f: Flows, tMax: real, dt: real)
    requires Physical(prev) && prev.t < tMax && dt >= 0.0
    requires f.fGlc >= 0.0 && f.fGln >= 0.0 && f.fB >= 0.0
    requires dt * (StarvationDeath + f.Total() / prev.c.V) <= 1.0
    ensures Step(prev, feed, f, tMax, dt).Ok?
    ensures Step(prev, feed, f, tMax, dt).value.Some?
    ensures Physical(Step(prev, feed, f, tMax, dt).value.value)
  {
    DefaultValid();
    AllRatesInRange(prev.c, Default);
    BalanceKeepsNonnegative(prev, feed, f, dt);
    NonnegativeMediumDefined(Balance(prev, feed, f, dt), Default);
  }

  /** Lactate, ammonium and product are not floored: from a cell-free 1 L
      culture with 10 mM lactate and no glucose, a 2 L/h glucose feed over one
      hour takes lactate to -10 mM (while glucose rises to 5000 mM), and the
      step yields that record whatever rates the previous record carried. */
  lemma MetabolitesNotClamped(r: Rates)
    ensures
      var prev := State(0.0, Culture(0.0, 0.0, 0.0, 10.0, 0.0, 0.0, 1.0), NoFlow, r);
      var c := Balance(prev, Feed(2500.0, 100.0), Flows(2.0, 0.0, 0.0), DefaultStep);
      && c.Lac == -10.0 && c.Glc == 5000.0
      && Step(prev, Feed(2500.0, 100.0), Flows(2.0, 0.0, 0.0), DefaultHorizon, DefaultStep) != DivisionByZero
  {
    var prev := State(0.0, Culture(0.0, 0.0, 0.0, 10.0, 0.0, 0.0, 1.0), NoFlow, r);
    var c := Balance(prev, Feed(2500.0, 100.0), Flows(2.0, 0.0, 0.0), DefaultStep);
    assert c.X == 0.0;
    assert c.Lac == -10.0;
    assert c.Glc == 5000.0;
    assert RatesDefined(c, Default);
  }
}
