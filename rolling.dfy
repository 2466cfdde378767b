/** `Series.rolling(window=2h+1, center=True).mean()` with pandas' default `min_periods`. */
module Rolling {
  import opened Wrappers
  import opened Stats
  import opened Columns

  /** The mean of rows `i-h .. i+h`, or missing when that window leaves the column or holds a gap. */
  function WindowMean(c: Column, i: nat, h: nat): Sample
    requires i < |c|
  {
    if i < h || i + h >= |c| then Missing
    else
      var w := c[i - h .. i + h + 1];
      if NoMissing(w) then
        KnownOfComplete(w);
        Present(Mean(Known(w)))
      else Missing
  }

  function CentredMean(c: Column, h: nat): (r: Column)
    ensures |r| == |c|
  {
    seq(|c|, i requires 0 <= i < |c| => WindowMean(c, i, h))
  }

  /**
   * A smoothed sample exists exactly when its whole window lies inside the
   * column with every sample known, and then it is the window's sum over its width.
   */
  lemma CentredMeanAt(c: Column, h: nat, i: nat)
    requires i < |c|
    ensures CentredMean(c, h)[i].Present? <==>
      h <= i && i + h < |c| && forall q :: i - h <= q <= i + h ==> c[q].Present?
    ensures CentredMean(c, h)[i].Present? ==>
      CentredMean(c, h)[i].value == Sum(Known(c[i - h .. i + h + 1])) / (2 * h + 1) as real
  {
    if h <= i && i + h < |c| {
      var w := c[i - h .. i + h + 1];
      assert NoMissing(w) <==> forall q :: i - h <= q <= i + h ==> c[q].Present? by {
        if NoMissing(w) {
          forall q | i - h <= q <= i + h ensures c[q].Present? {
            assert c[q] == w[q - (i - h)];
          }
        }
      }
      if NoMissing(w) {
        KnownOfComplete(w);
      }
    }
  }

  /** A window whose samples all equal `v` smooths to `v`. */
  lemma CentredMeanOfConstant(c: Column, h: nat, i: nat, v: real)
    requires h <= i && i + h < |c|
    requires forall q :: i - h <= q <= i + h ==> c[q] == Present(v)
    ensures CentredMean(c, h)[i] == Present(v)
  {
    var w := c[i - h .. i + h + 1];
    assert forall q :: 0 <= q < |w| ==> w[q] == c[q + i - h];
    KnownOfComplete(w);
    MeanOfConstant(Known(w), v);
  }

  /** Smoothing stays within bounds that hold for the window's samples. */
  lemma CentredMeanBounds(c: Column, h: nat, i: nat, lo: real, hi: real)
    requires i < |c|
    requires forall q :: 0 <= q < |c| && c[q].Present? ==> lo <= c[q].value <= hi
    ensures CentredMean(c, h)[i].Present? ==> lo <= CentredMean(c, h)[i].value <= hi
  {
    if CentredMean(c, h)[i].Present? {
      var w := c[i - h .. i + h + 1];
      KnownOfComplete(w);
      assert forall q :: 0 <= q < |w| ==> w[q] == c[q + i - h];
      MeanBounds(Known(w), lo, hi);
    }
  }
}
