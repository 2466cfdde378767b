/**
 * Gap filling of one channel as pandas does it with a linear interpolation
 * followed by a forward and a backward fill: linear interpolation by row
 * position between known samples, a trailing gap taking the last known
 * sample, then forward fill, then backward fill (which gives a leading gap
 * the first known sample).
 */
module GapFill {
  import opened Wrappers
  import opened Columns

  /** The last row at or before `i` whose sample is known. */
  function LastKnown(c: Column, i: int): (r: Option<nat>)
    requires -1 <= i < |c|
    ensures r.Some? ==> r.value <= i && c[r.value].Present? && forall k :: r.value < k <= i ==> c[k].Missing?
    ensures r.None? ==> forall k :: 0 <= k <= i ==> c[k].Missing?
    decreases i + 1
  {
    if i < 0 then None else if c[i].Present? then Some(i) else LastKnown(c, i - 1)
  }

  /** The first row at or after `i` whose sample is known. */
  function NextKnown(c: Column, i: int): (r: Option<nat>)
    requires 0 <= i <= |c|
    ensures r.Some? ==> i <= r.value < |c| && c[r.value].Present? && forall k :: i <= k < r.value ==> c[k].Missing?
    ensures r.None? ==> forall k :: i <= k < |c| ==> c[k].Missing?
    decreases |c| - i
  {
    if i == |c| then None else if c[i].Present? then Some(i) else NextKnown(c, i + 1)
  }

  /** The straight line through `(j, vj)` and `(k, vk)`, taken at `i`. */
  function Lerp(vj: real, vk: real, j: int, k: int, i: int): real
    requires j < k
  {
    vj + (vk - vj) * ((i - j) as real) / ((k - j) as real)
  }

  function InterpolateAt(c: Column, i: nat): Sample
    requires i < |c|
  {
    if c[i].Present? then c[i]
    else match LastKnown(c, i)
      case None => Missing
      case Some(j) =>
        match NextKnown(c, i)
        case None => c[j]
        case Some(k) => Present(Lerp(c[j].value, c[k].value, j, k, i))
  }

  /** `Series.interpolate(method='linear')`: leading gaps are left missing. */
  function Interpolate(c: Column): Column
  {
    seq(|c|, i requires 0 <= i < |c| => InterpolateAt(c, i))
  }

  /** `Series.ffill()`. */
  function ForwardFill(c: Column): Column
  {
    seq(|c|, i requires 0 <= i < |c| => match LastKnown(c, i) case None => Missing case Some(j) => c[j])
  }

  /** `Series.bfill()`. */
  function BackwardFill(c: Column): Column
  {
    seq(|c|, i requires 0 <= i < |c| => match NextKnown(c, i) case None => Missing case Some(k) => c[k])
  }

  /** The fill applied to each listed channel of a loaded table. */
  function FillGaps(c: Column): Column
  {
    BackwardFill(ForwardFill(Interpolate(c)))
  }

  /** After interpolation a sample is missing exactly when nothing is known up to its row. */
  lemma InterpolateMissing(c: Column, i: nat)
    requires i < |c|
    ensures Interpolate(c)[i].Missing? <==> LastKnown(c, i).None?
    ensures c[i].Present? ==> Interpolate(c)[i] == c[i]
  {
  }

  lemma LeadingPrefixMissing(c: Column, i: nat, m: nat)
    requires i < |c| && m <= i
    requires LastKnown(c, i).None?
    ensures LastKnown(c, m).None?
  {
    assert forall k :: 0 <= k <= m ==> c[k].Missing?;
  }

  /** Forward fill finds nothing left to do after interpolation. */
  lemma ForwardFillAfterInterpolate(c: Column)
    ensures ForwardFill(Interpolate(c)) == Interpolate(c)
  {
    var p := Interpolate(c);
    forall i | 0 <= i < |c| ensures ForwardFill(p)[i] == p[i] {
      InterpolateMissing(c, i);
      if p[i].Missing? {
        forall m | 0 <= m <= i ensures p[m].Missing? {
          LeadingPrefixMissing(c, i, m);
          InterpolateMissing(c, m);
        }
      }
    }
  }

  /** Backward fill gives a leading gap the first known sample of the channel. */
  lemma BackwardFillLeading(c: Column, i: nat)
    requires i < |c|
    requires LastKnown(c, i).None?
    ensures BackwardFill(Interpolate(c))[i] == (match NextKnown(c, i) case None => Missing case Some(k) => c[k])
  {
    var p := Interpolate(c);
    forall m | i <= m < |c| && c[m].Missing? && (forall q :: i <= q <= m ==> c[q].Missing?)
      ensures p[m].Missing?
    {
      InterpolateMissing(c, m);
    }
    match NextKnown(c, i)
    case None =>
      assert NextKnown(p, i).None?;
    case Some(k) =>
      InterpolateMissing(c, k);
      assert NextKnown(p, i) == Some(k);
  }

  /**
   * What the fill puts at row `i`, case by case: a known sample stays; a gap
   * between two known rows lies on the line through them; a trailing gap takes
   * the last known sample; a leading gap the first; a channel with nothing
   * known stays missing.
   */
  lemma FillGapsAt(c: Column, i: nat)
    requires i < |c|
    ensures |FillGaps(c)| == |c|
    ensures c[i].Present? ==> FillGaps(c)[i] == c[i]
    ensures c[i].Missing? && LastKnown(c, i).Some? && NextKnown(c, i).Some? ==>
      var j, k := LastKnown(c, i).value, NextKnown(c, i).value;
      FillGaps(c)[i] == Present(Lerp(c[j].value, c[k].value, j, k, i))
    ensures LastKnown(c, i).Some? && NextKnown(c, i).None? ==> FillGaps(c)[i] == c[LastKnown(c, i).value]
    ensures LastKnown(c, i).None? && NextKnown(c, i).Some? ==> FillGaps(c)[i] == c[NextKnown(c, i).value]
    ensures LastKnown(c, i).None? && NextKnown(c, i).None? ==> FillGaps(c)[i].Missing?
  {
    var p := Interpolate(c);
    ForwardFillAfterInterpolate(c);
    assert FillGaps(c) == BackwardFill(p);
    InterpolateMissing(c, i);
    if LastKnown(c, i).None? {
      BackwardFillLeading(c, i);
    } else {
      assert p[i].Present?;
      assert NextKnown(p, i) == Some(i);
    }
  }

  /** Every originally known sample is left as it was. */
  lemma FillKeepsKnown(c: Column)
    ensures |FillGaps(c)| == |c|
    ensures forall i :: 0 <= i < |c| && c[i].Present? ==> FillGaps(c)[i] == c[i]
  {
    forall i | 0 <= i < |c| && c[i].Present? ensures FillGaps(c)[i] == c[i] {
      FillGapsAt(c, i);
    }
  }

  /** A channel with at least one known sample has no missing sample after the fill. */
  lemma FillCompletes(c: Column, w: nat)
    requires w < |c| && c[w].Present?
    ensures NoMissing(FillGaps(c))
  {
    forall i | 0 <= i < |c| ensures FillGaps(c)[i].Present? {
      FillGapsAt(c, i);
      if c[i].Missing? {
        if w < i {
          assert LastKnown(c, i).Some?;
        } else {
          assert NextKnown(c, i).Some?;
        }
      }
    }
  }

  /** A gap between known rows `j` and `k` is filled on the straight line between them. */
  lemma FillInterior(c: Column, j: nat, i: nat, k: nat)
    requires j < i < k < |c|
    requires c[j].Present? && c[k].Present?
    requires forall q :: j < q < k ==> c[q].Missing?
    ensures FillGaps(c)[i] == Present(Lerp(c[j].value, c[k].value, j, k, i))
  {
    FillGapsAt(c, i);
    assert LastKnown(c, i) == Some(j);
    assert NextKnown(c, i) == Some(k);
  }

  /** A gap before the first known row `f` takes the sample at `f`. */
  lemma FillLeading(c: Column, i: nat, f: nat)
    requires i < f < |c| && c[f].Present?
    requires forall q :: 0 <= q < f ==> c[q].Missing?
    ensures FillGaps(c)[i] == c[f]
  {
    FillGapsAt(c, i);
    assert LastKnown(c, i).None?;
    assert NextKnown(c, i) == Some(f);
  }

  /** A gap after the last known row `l` takes the sample at `l`. */
  lemma FillTrailing(c: Column, l: nat, i: nat)
    requires l < i < |c| && c[l].Present?
    requires forall q :: l < q < |c| ==> c[q].Missing?
    ensures FillGaps(c)[i] == c[l]
  {
    FillGapsAt(c, i);
    assert LastKnown(c, i) == Some(l);
    assert NextKnown(c, i).None?;
  }

  /** A wholly missing channel stays wholly missing: nothing is fabricated. */
  lemma FillAllMissing(c: Column)
    requires AllMissing(c)
    ensures FillGaps(c) == c
  {
    forall i | 0 <= i < |c| ensures FillGaps(c)[i] == c[i] {
      FillGapsAt(c, i);
    }
  }

  /** A channel with no missing sample is unchanged. */
  lemma FillComplete(c: Column)
    requires NoMissing(c)
    ensures FillGaps(c) == c
  {
    FillKeepsKnown(c);
  }

  /** Filling twice is filling once. */
  lemma FillIdempotent(c: Column)
    ensures FillGaps(FillGaps(c)) == FillGaps(c)
  {
    if w :| 0 <= w < |c| && c[w].Present? {
      FillCompletes(c, w);
      FillComplete(FillGaps(c));
    } else {
      FillAllMissing(c);
    }
  }
}
