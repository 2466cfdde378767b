/** The metabolic cost of running on a grade, relative to flat ground. */
module Energy {

  /**
   * The cost multiplier for a grade given in percent: the quintic
   * 155.4g^5 - 30.4g^4 - 43.3g^3 + 46.3g^2 + 19.5g + 3.6 in the fraction
   * g = slope / 100, over its flat-ground value 3.6. No clamping is done here.
   */
  function EnergyCost(slopePercent: real): real
  {
    var g := slopePercent / 100.0;
    (155.4 * g * g * g * g * g - 30.4 * g * g * g * g - 43.3 * g * g * g
      + 46.3 * g * g + 19.5 * g + 3.6) / 3.6
  }

  /** Flat ground is the baseline: its multiplier is exactly one. */
  lemma FlatCostIsOne()
    ensures EnergyCost(0.0) == 1.0
  {
  }

  /**
   * `p == x * y` lies in `(0, x * yMax]`. The product is passed in as `p` so
   * that callers reason about it as a plain number.
   */
  lemma ProductBound(x: real, y: real, yMax: real, p: real)
    requires 0.0 < x && 0.0 < y <= yMax && p == x * y
    ensures 0.0 < p <= x * yMax
  {
  }

  /** On `0 < g <= 0.3` the quintic minus its constant term is positive. */
  lemma ClimbTermsPositive(g: real, g2: real, g3: real, g4: real, g5: real)
    requires 0.0 < g <= 0.3
    requires g2 == g * g && g3 == g2 * g && g4 == g3 * g && g5 == g4 * g
    ensures 155.4 * g5 - 30.4 * g4 - 43.3 * g3 + 46.3 * g2 + 19.5 * g > 0.0
  {
    ProductBound(g, g, 0.3, g2);
    ProductBound(g2, g, 0.3, g3);
    ProductBound(g3, g, 0.3, g4);
    var b := 19.5 + 46.3 * g - 43.3 * g2 - 30.4 * g3 + 155.4 * g4;
    assert b > 0.0;
    ProductBound(b, g, 0.3, b * g);
  }

  /** With `h = -g` on `0 < h <= 0.2` the quintic minus its constant term is negative. */
  lemma DescentTermsNegative(h: real, h2: real, h3: real, h4: real, h5: real)
    requires 0.0 < h <= 0.2
    requires h2 == h * h && h3 == h2 * h && h4 == h3 * h && h5 == h4 * h
    ensures -155.4 * h5 - 30.4 * h4 + 43.3 * h3 + 46.3 * h2 - 19.5 * h < 0.0
  {
    ProductBound(h, h, 0.2, h2);
    ProductBound(h2, h, 0.2, h3);
    ProductBound(h3, h, 0.2, h4);
    var b := 19.5 - 46.3 * h - 43.3 * h2 + 30.4 * h3 + 155.4 * h4;
    assert b > 0.0;
    ProductBound(b, h, 0.2, b * h);
  }

  /** Any climb up to the 30% clip bound costs more than flat ground. */
  lemma UphillCostsMore(slopePercent: real)
    requires 0.0 < slopePercent <= 30.0
    ensures EnergyCost(slopePercent) > 1.0
  {
    var g := slopePercent / 100.0;
    ClimbTermsPositive(g, g * g, g * g * g, g * g * g * g, g * g * g * g * g);
  }

  /** A moderate descent, down to 20%, costs less than flat ground. */
  lemma ModerateDescentCostsLess(slopePercent: real)
    requires -20.0 <= slopePercent < 0.0
    ensures EnergyCost(slopePercent) < 1.0
  {
    var h := -slopePercent / 100.0;
    DescentTermsNegative(h, h * h, h * h * h, h * h * h * h, h * h * h * h * h);
  }
}
