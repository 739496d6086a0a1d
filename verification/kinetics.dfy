/** The kinetic rate model of the CHO-cell culture (model/run.py, lines 1-97).

    Every rate is a pure function of the medium concentrations of one record
    and of a fixed parameter set. Quantities are real numbers; the source's
    IEEE doubles are not modelled. A rate function that would divide by an
    exact zero is given a precondition excluding that input: in the source
    such an input raises a division error, and the stepper below models that
    error explicitly before it calls any rate function.
 */
module Kinetics {

  /** The sixteen kinetic constants shared by all rate functions. */
  datatype Params = Params(
    muMax: real,    // maximal specific growth rate (1/h)
    KsGlc: real,    // glucose half-saturation (mM)
    KsGln: real,    // glutamine half-saturation (mM)
    YxGlc: real,    // cell yield on glucose (cells/mmol)
    mGlc: real,     // glucose maintenance uptake (mmol/cell/h)
    qmaxGln: real,  // maximal glutamine uptake
    KqGln: real,    // glutamine uptake half-saturation (mM)
    YlacGlc: real,  // lactate yield on glucose
    YammGln: real,  // ammonium yield on glutamine
    alpha: real,    // growth-associated production
    beta: real,     // non-growth-associated production
    Kl1Lac: real,   // lactate growth inhibition (mM)
    Kl2Lac: real,   // lactate death constant (mM)
    Kl1Amm: real,   // ammonium growth inhibition (mM)
    Kl2Amm: real,   // ammonium death constant (mM)
    Kl3Amm: real    // ammonium production inhibition (mM)
  )

  /** The module-level parameter set of model/run.py (lines 80-97). */
  const Default: Params := Params(
    0.045, 2.5, 0.5, 8e5, 4.5e-7, 2.5e-7, 10.0, 0.20, 1.50,
    0.0, 6e-6, 300.0, 30.0, 20.0, 25.0, 5.0)

  /** Physically meaningful constants: all positive, except the two
      production coefficients, which may be zero (the default `alpha` is). */
  predicate ValidParams(p: Params) {
    && p.muMax > 0.0 && p.KsGlc > 0.0 && p.KsGln > 0.0 && p.YxGlc > 0.0
    && p.mGlc > 0.0 && p.qmaxGln > 0.0 && p.KqGln > 0.0 && p.YlacGlc > 0.0
    && p.YammGln > 0.0 && p.alpha >= 0.0 && p.beta >= 0.0
    && p.Kl1Lac > 0.0 && p.Kl2Lac > 0.0 && p.Kl1Amm > 0.0 && p.Kl2Amm > 0.0
    && p.Kl3Amm > 0.0
  }

  /** The mass-balance variables of one record: viable cells, glucose,
      glutamine, lactate, ammonium, product and working volume. */
  datatype Culture = Culture(X: real, Glc: real, Gln: real, Lac: real, Amm: real, P: real, V: real)

  /** The specific rates stored with a record. */
  datatype Rates = Rates(mu: real, kD: real, qGlc: real, qGln: real, qLac: real, qAmm: real, qP: real)

  /** Death rate of a glucose-starved culture. */
  const StarvationDeath: real := 0.1
  /** Glutamine level above which lactate and ammonium follow their yields. */
  const MetabolicShift: real := 0.5
  /** Ammonium production rate below the metabolic shift. */
  const AmmoniumFloor: real := 1e-8

  predicate MediumNonnegative(c: Culture) {
    c.Glc >= 0.0 && c.Gln >= 0.0 && c.Lac >= 0.0 && c.Amm >= 0.0
  }

  // ---------------------------------------------------------------------
  // Where each rate function divides, and when that is defined
  // ---------------------------------------------------------------------

  predicate GrowthDefined(c: Culture, p: Params) {
    && p.KsGlc + c.Glc != 0.0 && p.KsGln + c.Gln != 0.0
    && p.Kl1Amm + c.Amm != 0.0 && p.Kl1Lac + c.Lac != 0.0
  }

  predicate DeathDefined(c: Culture, p: Params) {
    c.Glc > 0.0 ==> p.Kl2Amm + c.Amm != 0.0 && p.Kl2Lac + c.Lac != 0.0
  }

  predicate GlucoseUptakeDefined(c: Culture, p: Params) {
    c.Glc > 0.0 ==> p.YxGlc != 0.0
  }

  predicate GlutamineUptakeDefined(c: Culture, p: Params) {
    c.Gln > 0.0 ==> p.KqGln + c.Gln != 0.0
  }

  predicate ProductDefined(c: Culture, p: Params) {
    p.Kl3Amm + c.Amm != 0.0
  }

  /** No denominator met while evaluating all seven rates is zero. */
  predicate RatesDefined(c: Culture, p: Params) {
    && GrowthDefined(c, p) && DeathDefined(c, p) && GlucoseUptakeDefined(c, p)
    && GlutamineUptakeDefined(c, p) && ProductDefined(c, p)
  }


  // ---------------------------------------------------------------------
  // The saturation and inhibition factors the rate laws are built from
  // ---------------------------------------------------------------------

  /** Monod saturation `s/(K+s)` of a level `s` with half-saturation `K`. */
  function Saturation(s: real, k: real): real
    requires k + s != 0.0
  {
    s / (k + s)
  }

  /** Saturation with a half offset, `(K/2 + s)/(K+s)`: the glutamine factor
      of the growth law, which is 1/2 without glutamine. */
  function OffsetSaturation(s: real, k: real): real
    requires k + s != 0.0
  {
    (0.5 * k + s) / (k + s)
  }

  /** Non-competitive inhibition `K/(K+i)` by a level `i`. */
  function Inhibition(i: real, k: real): real
    requires k + i != 0.0
  {
    k / (k + i)
  }

  /** A part over a larger positive whole lies in [0, 1]. */
  lemma PartOfWhole(a: real, b: real)
    requires 0.0 <= a <= b && b > 0.0
    ensures 0.0 <= a / b <= 1.0
    ensures a < b ==> a / b < 1.0
    ensures a > 0.0 ==> a / b > 0.0
  {
    assert a / b * b == a;
  }

  lemma SaturationRange(s: real, k: real)
    requires k > 0.0 && s >= 0.0
    ensures 0.0 <= Saturation(s, k) < 1.0
    ensures s > 0.0 ==> Saturation(s, k) > 0.0
  {
    PartOfWhole(s, k + s);
  }

  lemma OffsetSaturationRange(s: real, k: real)
    requires k > 0.0 && s >= 0.0
    ensures 0.0 < OffsetSaturation(s, k) < 1.0
  {
    PartOfWhole(0.5 * k + s, k + s);
  }

  lemma InhibitionRange(i: real, k: real)
    requires k > 0.0 && i >= 0.0
    ensures 0.0 < Inhibition(i, k) <= 1.0
  {
    PartOfWhole(k, k + i);
  }

  /** The complement of an inhibition factor is the matching saturation. */
  lemma InhibitionComplement(i: real, k: real)
    requires k + i != 0.0
    ensures 1.0 - Inhibition(i, k) == Saturation(i, k)
  {
    var d := k + i;
    var x := k / d;
    var y := i / d;
    assert x * d == k && y * d == i;
    assert (x + y) * d == x * d + y * d;
    assert (x + y - 1.0) * d == 0.0;
    ZeroFactor(x + y - 1.0, d);
  }

  /** A zero product with a non-zero factor has its other factor zero. */
  lemma ZeroFactor(a: real, b: real)
    requires a * b == 0.0 && b != 0.0
    ensures a == 0.0
  {
    assert a * b / b == a;
  }

  /** Comparison of fractions with positive denominators by cross-multiplying. */
  lemma CrossMultiply(a: real, b: real, c: real, d: real)
    requires b > 0.0 && d > 0.0 && a * d <= c * b
    ensures a / b <= c / d
  {
    assert a / b == (a * d) / (b * d);
    assert c / d == (c * b) / (b * d);
  }

  /** Saturation never decreases as the level rises. */
  lemma SaturationMonotone(a: real, b: real, k: real)
    requires k > 0.0 && 0.0 <= a <= b
    ensures Saturation(a, k) <= Saturation(b, k)
  {
    assert a * (k + b) <= b * (k + a) by {
      assert a * k <= b * k;
    }
    CrossMultiply(a, k + a, b, k + b);
  }

  /** Inhibition never increases as the inhibitor rises. */
  lemma InhibitionAntitone(a: real, b: real, k: real)
    requires k > 0.0 && 0.0 <= a <= b
    ensures Inhibition(b, k) <= Inhibition(a, k)
  {
    assert k * (k + a) <= k * (k + b);
    CrossMultiply(k, k + b, k, k + a);
  }

  /** A positive scale times a factor in [0, 1] lies between 0 and the scale. */
  lemma ScaledFactor(m: real, x: real)
    requires m >= 0.0 && 0.0 <= x <= 1.0
    ensures 0.0 <= m * x <= m
  {
    assert m * (1.0 - x) == m - m * x;
    assert m * (1.0 - x) >= 0.0;
  }

  /** A positive scale times a proper fraction lies strictly between 0 and
      the scale. */
  lemma ScaledProperFraction(y: real, m: real, x: real)
    requires y == m * x && m > 0.0 && 0.0 < x < 1.0
    ensures 0.0 < y < m
  {
    PositiveProduct(y, m, x);
    PositiveProduct(m - y, m, 1.0 - x);
  }

  lemma PositiveProduct(y: real, m: real, x: real)
    requires y == m * x && m > 0.0 && x > 0.0
    ensures y > 0.0
  {
  }

  // ---------------------------------------------------------------------
  // The rate functions
  // ---------------------------------------------------------------------

  /** Specific growth rate (`mu_func`): Monod in glucose, offset Monod in
      glutamine, non-competitive inhibition by ammonium and by lactate. */
  function GrowthRate(c: Culture, p: Params): (mu: real)
    requires GrowthDefined(c, p)
    ensures c.Glc == 0.0 ==> mu == 0.0
  {
    p.muMax * Saturation(c.Glc, p.KsGlc) * OffsetSaturation(c.Gln, p.KsGln)
      * Inhibition(c.Amm, p.Kl1Amm) * Inhibition(c.Lac, p.Kl1Lac)
  }

  /** With non-negative concentrations every factor of the growth law lies in
      [0, 1], so growth lies between 0 and `mu_max`, and is positive exactly
      when glucose is present. */
  lemma GrowthRateRange(c: Culture, p: Params)
    requires ValidParams(p) && MediumNonnegative(c)
    ensures 0.0 <= GrowthRate(c, p) <= p.muMax
    ensures GrowthRate(c, p) > 0.0 <==> c.Glc > 0.0
  {
    var s := Saturation(c.Glc, p.KsGlc);
    var g := OffsetSaturation(c.Gln, p.KsGln);
    var a := Inhibition(c.Amm, p.Kl1Amm);
    var l := Inhibition(c.Lac, p.Kl1Lac);
    SaturationRange(c.Glc, p.KsGlc);
    OffsetSaturationRange(c.Gln, p.KsGln);
    InhibitionRange(c.Amm, p.Kl1Amm);
    InhibitionRange(c.Lac, p.Kl1Lac);
    ScaledFactor(p.muMax, s);
    ScaledFactor(p.muMax * s, g);
    ScaledFactor(p.muMax * s * g, a);
    ScaledFactor(p.muMax * s * g * a, l);
    if c.Glc > 0.0 {
      assert p.muMax * s > 0.0;
      assert p.muMax * s * g > 0.0;
      assert p.muMax * s * g * a > 0.0;
      assert p.muMax * s * g * a * l > 0.0;
    }
  }

  /** Specific death rate (`k_D`): the fixed starvation rate while glucose is
      exhausted, else half-weighted ammonium and lactate toxicity terms. */
  function DeathRate(c: Culture, p: Params): (kD: real)
    requires DeathDefined(c, p)
    ensures c.Glc <= 0.0 ==> kD == StarvationDeath
  {
    if c.Glc > 0.0 then
      0.05 * (1.0 - Inhibition(c.Amm, p.Kl2Amm)) + 0.05 * (1.0 - Inhibition(c.Lac, p.Kl2Lac))
    else
      StarvationDeath
  }

  /** While glucose is present the death law is a sum of two saturations of
      the toxins, each weighted 0.05; with non-negative toxins it lies in
      [0, 0.1), strictly below the starvation rate, and is positive exactly
      when either toxin is present. */
  lemma DeathRateSaturating(c: Culture, p: Params)
    requires c.Glc > 0.0 && DeathDefined(c, p)
    ensures DeathRate(c, p) == 0.05 * Saturation(c.Amm, p.Kl2Amm) + 0.05 * Saturation(c.Lac, p.Kl2Lac)
    ensures ValidParams(p) && c.Amm >= 0.0 && c.Lac >= 0.0 ==> 0.0 <= DeathRate(c, p) < StarvationDeath
    ensures ValidParams(p) && c.Amm >= 0.0 && c.Lac >= 0.0 ==>
      (DeathRate(c, p) > 0.0 <==> c.Amm > 0.0 || c.Lac > 0.0)
  {
    InhibitionComplement(c.Amm, p.Kl2Amm);
    InhibitionComplement(c.Lac, p.Kl2Lac);
    if ValidParams(p) && c.Amm >= 0.0 && c.Lac >= 0.0 {
      SaturationRange(c.Amm, p.Kl2Amm);
      SaturationRange(c.Lac, p.Kl2Lac);
    }
  }

  /** Glucose uptake rate (`GUR`): growth over yield plus maintenance while
      glucose is present, nothing once it is exhausted. */
  function GlucoseUptake(c: Culture, mu: real, p: Params): (q: real)
    requires GlucoseUptakeDefined(c, p)
    ensures c.Glc <= 0.0 ==> q == 0.0
  {
    if c.Glc > 0.0 then mu / p.YxGlc + p.mGlc else 0.0
  }

  /** While glucose is present, growth can be recovered from the uptake
      (`mu = Yx_Glc * (q_Glc - m_Glc)`), and a growing culture takes up at
      least its maintenance demand. */
  lemma GlucoseUptakeYield(c: Culture, mu: real, p: Params)
    requires c.Glc > 0.0 && GlucoseUptakeDefined(c, p)
    ensures (GlucoseUptake(c, mu, p) - p.mGlc) * p.YxGlc == mu
    ensures ValidParams(p) && mu >= 0.0 ==> GlucoseUptake(c, mu, p) >= p.mGlc > 0.0
  {
    assert mu / p.YxGlc * p.YxGlc == mu;
    if ValidParams(p) && mu >= 0.0 {
      assert mu / p.YxGlc >= 0.0;
    }
  }

  /** Glutamine uptake rate (`GlnUR`): Michaelis-Menten in glutamine, with
      denominator `Kq_Gln + Gln`. */
  function GlutamineUptake(c: Culture, p: Params): (q: real)
    requires GlutamineUptakeDefined(c, p)
    ensures c.Gln <= 0.0 ==> q == 0.0
  {
    if c.Gln > 0.0 then p.qmaxGln * c.Gln / (p.KqGln + c.Gln) else 0.0
  }

  /** While glutamine is present its uptake is `qmax_Gln` times the
      saturation of glutamine. */
  lemma GlutamineUptakeSaturation(c: Culture, p: Params)
    requires c.Gln > 0.0 && GlutamineUptakeDefined(c, p)
    ensures GlutamineUptake(c, p) == p.qmaxGln * Saturation(c.Gln, p.KqGln)
  {
  }

  /** Glutamine uptake lies strictly between 0 and `qmax_Gln` while
      glutamine is present, and is exactly half the maximum at
      `Gln = Kq_Gln`. */
  lemma GlutamineUptakeRange(c: Culture, p: Params)
    requires ValidParams(p) && c.Gln > 0.0
    ensures 0.0 < GlutamineUptake(c, p) < p.qmaxGln
    ensures c.Gln == p.KqGln ==> GlutamineUptake(c, p) * 2.0 == p.qmaxGln
  {
    GlutamineUptakeSaturation(c, p);
    SaturationRange(c.Gln, p.KqGln);
    ScaledProperFraction(GlutamineUptake(c, p), p.qmaxGln, Saturation(c.Gln, p.KqGln));
    if c.Gln == p.KqGln {
      HalfSaturation(p.KqGln);
      assert Saturation(c.Gln, p.KqGln) == 0.5;
      assert GlutamineUptake(c, p) == p.qmaxGln * 0.5;
    }
  }

  /** At its half-saturation constant a level is half-saturated. */
  lemma HalfSaturation(k: real)
    requires k > 0.0
    ensures Saturation(k, k) == 0.5
  {
    assert k / (k + k) * (k + k) == k;
  }

  /** Glutamine uptake never decreases as glutamine rises, also across the
      threshold where glutamine appears. */
  lemma GlutamineUptakeMonotone(c1: Culture, c2: Culture, p: Params)
    requires ValidParams(p) && c1.Gln <= c2.Gln
    ensures GlutamineUptake(c1, p) <= GlutamineUptake(c2, p)
  {
    if c1.Gln > 0.0 {
      PositiveUptakeMonotone(c1, c2, p);
    } else if c2.Gln > 0.0 {
      GlutamineUptakeRange(c2, p);
    }
  }

  /** Between two positive glutamine levels, uptake follows the saturation. */
  lemma PositiveUptakeMonotone(c1: Culture, c2: Culture, p: Params)
    requires ValidParams(p) && 0.0 < c1.Gln <= c2.Gln
    ensures GlutamineUptake(c1, p) <= GlutamineUptake(c2, p)
  {
    GlutamineUptakeSaturation(c1, p);
    GlutamineUptakeSaturation(c2, p);
    SaturationMonotone(c1.Gln, c2.Gln, p.KqGln);
    var a := Saturation(c1.Gln, p.KqGln);
    var b := Saturation(c2.Gln, p.KqGln);
    assert p.qmaxGln * a <= p.qmaxGln * b;
  }

  /** Lactate production rate (`LPR`): a fixed yield on glucose uptake above
      the metabolic shift, none at or below it. */
  function LactateProduction(c: Culture, qGlc: real, p: Params): (q: real)
    ensures c.Gln <= MetabolicShift ==> q == 0.0
    ensures c.Gln > MetabolicShift && qGlc != 0.0 ==> q / qGlc == p.YlacGlc
    ensures ValidParams(p) && qGlc >= 0.0 ==> q >= 0.0
    ensures ValidParams(p) ==> (q == 0.0 <==> c.Gln <= MetabolicShift || qGlc == 0.0)
  {
    if c.Gln > MetabolicShift then p.YlacGlc * qGlc else 0.0
  }

  /** Ammonium production rate (`APR`): a fixed yield on glutamine uptake
      above the metabolic shift, a tiny positive floor at or below it. */
  function AmmoniumProduction(c: Culture, qGln: real, p: Params): (q: real)
    ensures c.Gln <= MetabolicShift ==> q == AmmoniumFloor
    ensures c.Gln > MetabolicShift && qGln != 0.0 ==> q / qGln == p.YammGln
    ensures ValidParams(p) && (c.Gln <= MetabolicShift || qGln > 0.0) ==> q > 0.0
  {
    if c.Gln > MetabolicShift then p.YammGln * qGln else AmmoniumFloor
  }

  /** Product formation rate (`PPR`): Luedeking-Piret production attenuated
      by ammonium inhibition. */
  function ProductFormation(c: Culture, mu: real, p: Params): (q: real)
    requires ProductDefined(c, p)
    ensures c.Amm == 0.0 ==> q == p.alpha * mu + p.beta
  {
    (p.alpha * mu + p.beta) * Inhibition(c.Amm, p.Kl3Amm)
  }

  /** Ammonium attenuates product formation: for non-negative growth the rate
      lies between 0 and its uninhibited value, and more ammonium never
      means faster production. */
  lemma ProductInhibited(c1: Culture, c2: Culture, mu: real, p: Params)
    requires ValidParams(p) && mu >= 0.0 && 0.0 <= c1.Amm <= c2.Amm
    ensures 0.0 <= ProductFormation(c1, mu, p) <= p.alpha * mu + p.beta
    ensures ProductFormation(c2, mu, p) <= ProductFormation(c1, mu, p)
  {
    var base := p.alpha * mu + p.beta;
    assert base >= 0.0;
    InhibitionRange(c1.Amm, p.Kl3Amm);
    InhibitionAntitone(c1.Amm, c2.Amm, p.Kl3Amm);
    ScaledFactor(base, Inhibition(c1.Amm, p.Kl3Amm));
    assert base * Inhibition(c2.Amm, p.Kl3Amm) <= base * Inhibition(c1.Amm, p.Kl3Amm);
  }

  /** All seven rates of one record, in the dependency order of the source:
      growth before glucose uptake, glucose uptake before lactate, glutamine
      uptake before ammonium, growth before product. */
  function AllRates(c: Culture, p: Params): (r: Rates)
    requires RatesDefined(c, p)
    ensures r.qGlc == GlucoseUptake(c, r.mu, p) && r.qLac == LactateProduction(c, r.qGlc, p)
    ensures r.qAmm == AmmoniumProduction(c, r.qGln, p) && r.qP == ProductFormation(c, r.mu, p)
  {
    var mu := GrowthRate(c, p);
    var qGlc := GlucoseUptake(c, mu, p);
    var qGln := GlutamineUptake(c, p);
    Rates(mu, DeathRate(c, p), qGlc, qGln,
          LactateProduction(c, qGlc, p), AmmoniumProduction(c, qGln, p),
          ProductFormation(c, mu, p))
  }

  /** Every stored rate within its physical range. */
  predicate RatesInRange(r: Rates, p: Params) {
    && 0.0 <= r.mu <= p.muMax
    && 0.0 <= r.kD <= StarvationDeath
    && 0.0 <= r.qGlc
    && 0.0 <= r.qGln < p.qmaxGln
    && 0.0 <= r.qLac
    && 0.0 < r.qAmm
    && 0.0 <= r.qP
  }

  /** With valid constants, a non-negative medium causes no zero denominator. */
  lemma NonnegativeMediumDefined(c: Culture, p: Params)
    requires ValidParams(p) && MediumNonnegative(c)
    ensures RatesDefined(c, p)
  {
  }

  /** With valid constants the ammonium rate is never exactly zero: below the
      shift it is the floor, above it glutamine is present and taken up. */
  lemma AmmoniumNeverZero(c: Culture, p: Params)
    requires ValidParams(p) && RatesDefined(c, p)
    ensures AllRates(c, p).qAmm > 0.0
  {
    if c.Gln > MetabolicShift {
      GlutamineUptakeRange(c, p);
    }
  }

  /** All rates of a non-negative medium lie in their physical ranges. */
  lemma AllRatesInRange(c: Culture, p: Params)
    requires ValidParams(p) && MediumNonnegative(c)
    ensures RatesInRange(AllRates(c, p), p)
  {
    var r := AllRates(c, p);
    GrowthRateRange(c, p);
    if c.Glc > 0.0 {
      DeathRateSaturating(c, p);
      GlucoseUptakeYield(c, r.mu, p);
    }
    if c.Gln > 0.0 {
      GlutamineUptakeRange(c, p);
    }
    AmmoniumNeverZero(c, p);
    ProductInhibited(c, c, r.mu, p);
  }

  /** The default constants are physically valid. */
  lemma DefaultValid()
    ensures ValidParams(Default)
  {
  }

  /** Growth rate of the default initial culture (35 mM glucose, 4 mM
      glutamine, no lactate or ammonium) under the default constants:
      0.045 * 35/37.5 * 4.25/4.5 * 1 * 1 = 119/3000 per hour. */
  lemma DefaultInitialGrowth()
    ensures GrowthRate(Culture(2e5, 35.0, 4.0, 0.0, 0.0, 0.0, 1000.0), Default) == 119.0 / 3000.0
  {
    assert Saturation(35.0, 2.5) == 14.0 / 15.0;
    assert OffsetSaturation(4.0, 0.5) == 17.0 / 18.0;
    assert Inhibition(0.0, 20.0) == 1.0;
    assert Inhibition(0.0, 300.0) == 1.0;
  }
}
