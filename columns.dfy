/**
 * A table column as pandas holds it: one sample per row, a missing sample (NaN)
 * written `Missing`. The elementwise operations below propagate a missing sample
 * the way pandas arithmetic does.
 */
module Columns {
  import opened Wrappers
  import opened Stats

  /** One sample of a channel: a number, or missing (NaN). */
  datatype Sample = Missing | Present(value: real)
  type Column = seq<Sample>

  predicate NoMissing(c: Column)
  {
    forall i :: 0 <= i < |c| ==> c[i].Present?
  }

  predicate AllMissing(c: Column)
  {
    forall i :: 0 <= i < |c| ==> c[i].Missing?
  }

  /** `c * k`. */
  function Scale(c: Column, k: real): Column
  {
    seq(|c|, i requires 0 <= i < |c| => if c[i].Present? then Present(c[i].value * k) else Missing)
  }

  /** The product of two samples, missing when either is. */
  function Times(x: Sample, y: Sample): Sample
  {
    if x.Present? && y.Present? then Present(x.value * y.value) else Missing
  }

  /** `a * b` over two aligned columns. */
  function Product(a: Column, b: Column): Column
    requires |a| == |b|
  {
    seq(|a|, i requires 0 <= i < |a| => Times(a[i], b[i]))
  }

  /** The sum of two samples, missing when either is. */
  function Plus(x: Sample, y: Sample): Sample
  {
    if x.Present? && y.Present? then Present(x.value + y.value) else Missing
  }

  /** `a + b` over two aligned columns. */
  function Add(a: Column, b: Column): Column
    requires |a| == |b|
  {
    seq(|a|, i requires 0 <= i < |a| => Plus(a[i], b[i]))
  }

  /** `a / b * 100` over two aligned columns whose divisor holds no zero. */
  function Percent(a: Column, b: Column): Column
    requires |a| == |b|
    requires forall i :: 0 <= i < |b| ==> b[i] != Present(0.0)
  {
    seq(|a|, i requires 0 <= i < |a| =>
      if a[i].Present? && b[i].Present? then Present(a[i].value / b[i].value * 100.0) else Missing)
  }

  /** `Series.diff()`: the change from the previous row; the first row has none. */
  function Diff(c: Column): Column
  {
    seq(|c|, i requires 0 <= i < |c| =>
      if i > 0 && c[i].Present? && c[i - 1].Present? then Present(c[i].value - c[i - 1].value) else Missing)
  }

  /** `Series.replace(0, NaN)`. */
  function ZeroToMissing(c: Column): Column
  {
    seq(|c|, i requires 0 <= i < |c| => if c[i] == Present(0.0) then Missing else c[i])
  }

  function Clamp(x: real, lo: real, hi: real): real
  {
    if x < lo then lo else if x > hi then hi else x
  }

  /** `Series.clip(lo, hi)`: a missing sample stays missing. */
  function Clip(c: Column, lo: real, hi: real): Column
  {
    seq(|c|, i requires 0 <= i < |c| => if c[i].Present? then Present(Clamp(c[i].value, lo, hi)) else Missing)
  }

  /** `Series.clip(lower=lo)`. */
  function ClipBelow(c: Column, lo: real): Column
  {
    seq(|c|, i requires 0 <= i < |c| =>
      if c[i].Present? then Present(if c[i].value < lo then lo else c[i].value) else Missing)
  }

  /** `Series.fillna(v)`. */
  function FillMissing(c: Column, v: real): Column
  {
    seq(|c|, i requires 0 <= i < |c| => if c[i].Present? then c[i] else Present(v))
  }

  /** The known samples in row order: what pandas reductions see after skipping NaN. */
  function Known(c: Column): (r: seq<real>)
    ensures |r| <= |c|
  {
    if c == [] then []
    else (if c[0].Present? then [c[0].value] else []) + Known(c[1..])
  }

  /** `Series.median()`: NaN when no sample is known. */
  function MedianOf(c: Column): Option<real>
  {
    var xs := Known(c);
    if xs == [] then None else Some(Median(xs))
  }

  lemma {:induction false} KnownOfComplete(c: Column)
    requires NoMissing(c)
    ensures |Known(c)| == |c|
    ensures forall i :: 0 <= i < |c| ==> Known(c)[i] == c[i].value
  {
    if c != [] {
      KnownOfComplete(c[1..]);
    }
  }

  /** Nothing is known exactly when every sample is missing. */
  lemma {:induction false} KnownEmpty(c: Column)
    ensures Known(c) == [] <==> AllMissing(c)
  {
    if c != [] {
      KnownEmpty(c[1..]);
      if AllMissing(c[1..]) && c[0].Missing? {
        assert AllMissing(c) by {
          forall i | 0 <= i < |c| ensures c[i].Missing? {
            if i > 0 { assert c[i] == c[1..][i - 1]; }
          }
        }
      }
    }
  }

  /** The known samples of a doubled column are the doubled known samples. */
  lemma {:induction false} KnownDouble(c: Column)
    ensures Known(Scale(c, 2.0)) == Doubled(Known(c))
  {
    if c != [] {
      var d := Scale(c, 2.0);
      assert d[1..] == Scale(c[1..], 2.0);
      KnownDouble(c[1..]);
      KnownDoublePrefix(c);
    }
  }

  lemma KnownDoublePrefix(c: Column)
    requires c != []
    requires Known(Scale(c[1..], 2.0)) == Doubled(Known(c[1..]))
    requires Scale(c, 2.0)[1..] == Scale(c[1..], 2.0)
    ensures Known(Scale(c, 2.0)) == Doubled(Known(c))
  {
    if c[0].Present? {
      KnownDoubleHeadKnown(c);
    } else {
      KnownDoubleHeadMissing(c);
    }
  }

  lemma KnownDoubleHeadKnown(c: Column)
    requires c != [] && c[0].Present?
    requires Known(Scale(c[1..], 2.0)) == Doubled(Known(c[1..]))
    requires Scale(c, 2.0)[1..] == Scale(c[1..], 2.0)
    ensures Known(Scale(c, 2.0)) == Doubled(Known(c))
  {
    var rest := Known(c[1..]);
    var d := Scale(c, 2.0);
    assert d[0] == Present(c[0].value * 2.0);
    assert Known(c) == [c[0].value] + rest;
    DoubledCons(c[0].value, rest);
    calc {
      Known(d);
      [c[0].value * 2.0] + Known(d[1..]);
      [c[0].value * 2.0] + Doubled(rest);
      Doubled([c[0].value] + rest);
    }
  }

  lemma KnownDoubleHeadMissing(c: Column)
    requires c != [] && c[0].Missing?
    requires Known(Scale(c[1..], 2.0)) == Doubled(Known(c[1..]))
    requires Scale(c, 2.0)[1..] == Scale(c[1..], 2.0)
    ensures Known(Scale(c, 2.0)) == Doubled(Known(c))
  {
    var d := Scale(c, 2.0);
    assert d[0] == Missing;
    assert Known(c) == Known(c[1..]);
    calc {
      Known(d);
      Known(d[1..]);
      Known(Scale(c[1..], 2.0));
      Doubled(Known(c[1..]));
      Doubled(Known(c));
    }
  }

  /** Doubling a channel doubles its median and keeps it missing when nothing is known. */
  lemma MedianOfDoubled(c: Column)
    ensures MedianOf(Scale(c, 2.0)).Some? <==> MedianOf(c).Some?
    ensures MedianOf(c).Some? ==> MedianOf(Scale(c, 2.0)).value == 2.0 * MedianOf(c).value
  {
    KnownDouble(c);
    if Known(c) != [] {
      MedianDouble(Known(c));
    }
  }
}
