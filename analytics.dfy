/**
 * The table arithmetic behind three of the activity charts, apart from the
 * drawing: the speed plotted against the grade, the efficiency drift between
 * the first and the last hour, and the median grade-adjusted pace per grade.
 * Each works on its own copy of the table and leaves the caller's unchanged.
 */
module Analytics {
  import opened Wrappers
  import opened Stats
  import opened Columns
  import opened Frames
  import opened Pipeline

  const TimeMin := "time_min"
  const EfSmooth := "ef_smooth"
  const EfficiencyEffort := "efficiency_effort"

  // ---------------------------------------------------------------------------
  // Row selection
  // ---------------------------------------------------------------------------

  /** Boolean row selection as row positions: the rows from `i` on whose mask entry holds, in table order. */
  function Where(mask: seq<bool>, i: nat): (r: seq<nat>)
    requires i <= |mask|
    ensures forall j :: 0 <= j < |r| ==> i <= r[j] < |mask| && mask[r[j]]
    ensures forall j, k :: 0 <= j < k < |r| ==> r[j] < r[k]
    ensures forall q :: i <= q < |mask| && mask[q] ==> q in r
    decreases |mask| - i
  {
    if i == |mask| then []
    else (if mask[i] then [i] else []) + Where(mask, i + 1)
  }

  // ---------------------------------------------------------------------------
  // Slope against speed
  // ---------------------------------------------------------------------------

  /** The speed plotted against the grade: the km/h column, or one made from the m/s speed. */
  function ScatterSpeed(cols: ColumnMap): Result<Column, PipelineError>
  {
    if SpeedKmh in cols then Success(cols[SpeedKmh])
    else if EnhancedSpeed in cols then Success(Scale(cols[EnhancedSpeed], 3.6))
    else Failure(MissingColumn(EnhancedSpeed))
  }

  /** The fallback plots exactly what loading would have stored as the km/h speed. */
  lemma ScatterSpeedFallback(cols: ColumnMap)
    requires EnhancedSpeed in cols
    ensures ScatterSpeed(cols - {SpeedKmh}) == Success(Scale(cols[EnhancedSpeed], 3.6))
    ensures ScatterSpeed(WithSpeedKmh(cols)) == ScatterSpeed(cols - {SpeedKmh})
  {
  }

  // ---------------------------------------------------------------------------
  // Efficiency drift
  // ---------------------------------------------------------------------------

  /** Minutes since the first timestamp of the table. */
  function Minutes(ts: Column): (m: Column)
    requires |ts| > 0
    ensures |m| == |ts|
  {
    seq(|ts|, i requires 0 <= i < |ts| =>
      if ts[i].Present? && ts[0].Present? then Present((ts[i].value - ts[0].value) / 60.0) else Missing)
  }

  /**
   * The elapsed-minutes column: the table's own, or one made from the
   * timestamp index. A table without a timestamp index has no elapsed time.
   */
  function ElapsedMinutes(f: Frame): (r: Result<Column, PipelineError>)
    requires WellFormed(f)
    ensures r.Success? ==> |r.value| == f.rows
  {
    if TimeMin in f.columns then Success(f.columns[TimeMin])
    else match f.index
      case RangeIndex => Failure(NotTimeIndexed)
      case TimeIndex(ts) => if |ts| == 0 then Failure(EmptyResult) else Success(Minutes(ts))
  }

  /** Elapsed time starts at zero at the first row and gives back each timestamp. */
  lemma ElapsedFromFirstRow(ts: Column, i: nat)
    requires i < |ts| && ts[0].Present? && ts[i].Present?
    ensures Minutes(ts)[0] == Present(0.0)
    ensures Minutes(ts)[i].Present? && ts[0].value + 60.0 * Minutes(ts)[i].value == ts[i].value
  {
  }

  /**
   * The effort speed in metres per minute: the running speed plus ten metres
   * for every metre climbed since the previous row; descents count nothing.
   */
  function EffortSpeed(speed: Column, altitude: Column): (e: Column)
    requires |speed| == |altitude|
    ensures |e| == |speed|
  {
    Add(Scale(speed, 60.0), Scale(Scale(ClipBelow(Diff(altitude), 0.0), 10.0), 60.0))
  }

  /** The positive altitude gain is never negative. */
  lemma GainNonNegative(altitude: Column, i: nat)
    requires i < |altitude|
    ensures ClipBelow(Diff(altitude), 0.0)[i].Present? ==> ClipBelow(Diff(altitude), 0.0)[i].value >= 0.0
    ensures ClipBelow(Diff(altitude), 0.0)[i].Present? <==> 0 < i && altitude[i].Present? && altitude[i - 1].Present?
  {
  }

  /**
   * The effort speed exists where the speed and two consecutive altitudes are
   * known, and is the speed in m/min plus 600 times the metres gained.
   */
  lemma EffortSpeedAt(speed: Column, altitude: Column, i: nat)
    requires |speed| == |altitude| && i < |speed|
    ensures EffortSpeed(speed, altitude)[i].Present? <==>
      speed[i].Present? && 0 < i && altitude[i].Present? && altitude[i - 1].Present?
    ensures EffortSpeed(speed, altitude)[i].Present? ==>
      var climb := altitude[i].value - altitude[i - 1].value;
      EffortSpeed(speed, altitude)[i].value ==
        speed[i].value * 60.0 + (if climb < 0.0 then 0.0 else climb) * 600.0 &&
      EffortSpeed(speed, altitude)[i].value >= speed[i].value * 60.0
  {
  }

  /** The activity mask: a heart rate above 40 and an effort speed above 50 m/min. */
  predicate Active(hr: Sample, effort: Sample)
  {
    hr.Present? && hr.value > 40.0 && effort.Present? && effort.value > 50.0
  }

  /** One surviving row: its elapsed minute and its efficiency. */
  datatype Effort = Effort(minute: Sample, efficiency: Sample)

  function ActiveMask(hr: Column, effort: Column): (m: seq<bool>)
    requires |hr| == |effort|
    ensures |m| == |hr| && forall i :: 0 <= i < |m| ==> m[i] == Active(hr[i], effort[i])
  {
    seq(|hr|, i requires 0 <= i < |hr| => Active(hr[i], effort[i]))
  }

  /** The rows that pass the mask, each with its efficiency: effort speed per heartbeat. */
  function ActiveEfforts(time: Column, hr: Column, effort: Column): seq<Effort>
    requires |time| == |hr| == |effort|
  {
    var rs := Where(ActiveMask(hr, effort), 0);
    seq(|rs|, j requires 0 <= j < |rs| => Effort(time[rs[j]], Present(effort[rs[j]].value / hr[rs[j]].value)))
  }

  /**
   * The survivors are exactly the active rows, in table order, each with the
   * effort speed over the heart rate as its efficiency, which is positive.
   */
  lemma ActiveEffortsAt(time: Column, hr: Column, effort: Column)
    requires |time| == |hr| == |effort|
    ensures var rs := Where(ActiveMask(hr, effort), 0);
      |ActiveEfforts(time, hr, effort)| == |rs| &&
      (forall q :: 0 <= q < |hr| ==> (q in rs <==> Active(hr[q], effort[q]))) &&
      (forall j, k :: 0 <= j < k < |rs| ==> rs[j] < rs[k]) &&
      (forall j :: 0 <= j < |rs| ==>
        ActiveEfforts(time, hr, effort)[j].minute == time[rs[j]] &&
        ActiveEfforts(time, hr, effort)[j].efficiency == Present(effort[rs[j]].value / hr[rs[j]].value) &&
        ActiveEfforts(time, hr, effort)[j].efficiency.value > 0.0)
  {
    var mask := ActiveMask(hr, effort);
    var rs := Where(mask, 0);
    var es := ActiveEfforts(time, hr, effort);
    forall j | 0 <= j < |rs| ensures es[j].efficiency.value > 0.0 {
      EfficiencyPositive(hr[rs[j]], effort[rs[j]]);
    }
  }

  /** An active row's efficiency is positive. */
  lemma EfficiencyPositive(hr: Sample, effort: Sample)
    requires Active(hr, effort)
    ensures effort.value / hr.value > 0.0
  {
  }

  /** The rows of a table that already carries efficiencies: all of them. */
  function GivenEfforts(time: Column, efficiency: Column): seq<Effort>
    requires |time| == |efficiency|
  {
    seq(|time|, i requires 0 <= i < |time| => Effort(time[i], efficiency[i]))
  }

  /** The latest known minute, if any minute is known. */
  function LastMinute(es: seq<Effort>): (r: Option<real>)
    ensures r.Some? ==> exists j :: 0 <= j < |es| && es[j].minute == Present(r.value)
    ensures r.Some? ==> forall j :: 0 <= j < |es| && es[j].minute.Present? ==> es[j].minute.value <= r.value
    ensures r.None? ==> forall j :: 0 <= j < |es| ==> es[j].minute.Missing?
  {
    if es == [] then None
    else
      var rest := LastMinute(es[1..]);
      assert forall j :: 1 <= j < |es| ==> es[j] == es[1..][j - 1];
      if es[0].minute.Missing? then rest
      else match rest
        case None => Some(es[0].minute.value)
        case Some(m) => Some(if es[0].minute.value > m then es[0].minute.value else m)
  }

  /** The efficiencies of the rows within the first hour. */
  function EarlyEfficiencies(es: seq<Effort>): Column
  {
    if es == [] then []
    else
      var head := if es[0].minute.Present? && es[0].minute.value <= 60.0 then [es[0].efficiency] else [];
      head + EarlyEfficiencies(es[1..])
  }

  /** The efficiencies of the rows at or after minute `from`. */
  function LateEfficiencies(es: seq<Effort>, from: real): Column
  {
    if es == [] then []
    else
      var head := if es[0].minute.Present? && es[0].minute.value >= from then [es[0].efficiency] else [];
      head + LateEfficiencies(es[1..], from)
  }

  /** `Series.mean()`: the mean of the known samples, or nothing when none is known. */
  function MeanOf(c: Column): Option<real>
  {
    if Known(c) == [] then None else Some(Mean(Known(c)))
  }

  /**
   * The drop in percent from the mean efficiency of the first hour to that of
   * the last hour, when both means exist and the first is not zero.
   */
  function DriftOf(es: seq<Effort>): Option<real>
  {
    var first := MeanOf(EarlyEfficiencies(es));
    var last := match LastMinute(es) case None => None case Some(t) => MeanOf(LateEfficiencies(es, t - 60.0));
    if first.Some? && last.Some? && first.value != 0.0 then
      Some((first.value - last.value) / first.value * 100.0)
    else None
  }

  /**
   * The efficiency drift of a table: from the efficiencies it carries when it
   * has a smoothed series, and otherwise from the active rows of the effort
   * speed computed on its copy. A column the computation reads and the table
   * lacks is an error.
   */
  function EffortDrift(f: Frame): Result<Option<real>, PipelineError>
    requires WellFormed(f)
  {
    match ElapsedMinutes(f)
    case Failure(e) => Failure(e)
    case Success(time) =>
      var cols := f.columns;
      if EfSmooth in cols then
        if EfficiencyEffort !in cols then Failure(MissingColumn(EfficiencyEffort))
        else Success(DriftOf(GivenEfforts(time, cols[EfficiencyEffort])))
      else if EnhancedAltitude !in cols then Failure(MissingColumn(EnhancedAltitude))
      else if EnhancedSpeed !in cols then Failure(MissingColumn(EnhancedSpeed))
      else if HeartRate !in cols then Failure(MissingColumn(HeartRate))
      else
        var effort := EffortSpeed(cols[EnhancedSpeed], cols[EnhancedAltitude]);
        Success(DriftOf(ActiveEfforts(time, cols[HeartRate], effort)))
  }

  predicate AllPositive(es: seq<Effort>)
  {
    forall j :: 0 <= j < |es| ==> es[j].efficiency.Present? && es[j].efficiency.value > 0.0
  }

  lemma {:induction false} EarlyWindow(es: seq<Effort>)
    requires AllPositive(es)
    ensures |EarlyEfficiencies(es)| > 0 <==> exists j :: 0 <= j < |es| && es[j].minute.Present? && es[j].minute.value <= 60.0
    ensures forall k :: 0 <= k < |EarlyEfficiencies(es)| ==>
      EarlyEfficiencies(es)[k].Present? && EarlyEfficiencies(es)[k].value > 0.0
  {
    if es != [] {
      EarlyWindow(es[1..]);
      assert forall j :: 1 <= j < |es| ==> es[j] == es[1..][j - 1];
      var head := if es[0].minute.Present? && es[0].minute.value <= 60.0 then [es[0].efficiency] else [];
      assert EarlyEfficiencies(es) == head + EarlyEfficiencies(es[1..]);
    }
  }

  lemma {:induction false} LateWindow(es: seq<Effort>, from: real, j: nat)
    requires AllPositive(es)
    requires j < |es| && es[j].minute.Present? && es[j].minute.value >= from
    ensures |LateEfficiencies(es, from)| > 0
    ensures forall k :: 0 <= k < |LateEfficiencies(es, from)| ==>
      LateEfficiencies(es, from)[k].Present? && LateEfficiencies(es, from)[k].value > 0.0
  {
    if j > 0 {
      assert es[1..][j - 1] == es[j];
      LateWindow(es[1..], from, j - 1);
    } else if |es| > 1 {
      LatePositive(es[1..], from);
    }
  }

  lemma {:induction false} LatePositive(es: seq<Effort>, from: real)
    requires AllPositive(es)
    ensures forall k :: 0 <= k < |LateEfficiencies(es, from)| ==>
      LateEfficiencies(es, from)[k].Present? && LateEfficiencies(es, from)[k].value > 0.0
  {
    if es != [] {
      assert AllPositive(es[1..]) by {
        forall j | 0 <= j < |es| - 1 ensures es[1..][j] == es[j + 1] { }
      }
      LatePositive(es[1..], from);
    }
  }

  /**
   * The first-hour window is taken row by row: each row of the first hour
   * contributes its efficiency once, in order, and every other row nothing.
   */
  lemma {:induction false} EarlyAppend(a: seq<Effort>, b: seq<Effort>)
    ensures EarlyEfficiencies(a + b) == EarlyEfficiencies(a) + EarlyEfficiencies(b)
    ensures forall e :: EarlyEfficiencies([e]) == (if e.minute.Present? && e.minute.value <= 60.0 then [e.efficiency] else [])
  {
    if a == [] {
      assert a + b == b;
    } else {
      assert (a + b)[1..] == a[1..] + b;
      EarlyAppend(a[1..], b);
    }
  }

  /**
   * The last-hour window is taken row by row: each row at or after `from`
   * contributes its efficiency once, in order, and every other row nothing.
   */
  lemma {:induction false} LateAppend(a: seq<Effort>, b: seq<Effort>, from: real)
    ensures LateEfficiencies(a + b, from) == LateEfficiencies(a, from) + LateEfficiencies(b, from)
    ensures forall e :: LateEfficiencies([e], from) == (if e.minute.Present? && e.minute.value >= from then [e.efficiency] else [])
  {
    if a == [] {
      assert a + b == b;
    } else {
      assert (a + b)[1..] == a[1..] + b;
      LateAppend(a[1..], b, from);
    }
  }

  /** The mean of a window of known positive samples exists and is positive. */
  lemma MeanOfPositive(c: Column)
    requires |c| > 0
    requires forall k :: 0 <= k < |c| ==> c[k].Present? && c[k].value > 0.0
    ensures MeanOf(c).Some? && MeanOf(c).value > 0.0
  {
    assert NoMissing(c);
    KnownOfComplete(c);
    MeanPositive(Known(c));
  }

  lemma DropBelowHundred(first: real, last: real)
    requires first > 0.0 && last > 0.0
    ensures (first - last) / first * 100.0 < 100.0
  {
    var q := (first - last) / first;
    assert q * first == first - last;
    assert q < 1.0;
  }

  /**
   * With positive efficiencies the drift exists exactly when some row lies in
   * the first hour (the latest row always lies in the last hour), and it is
   * below 100%.
   */
  lemma DriftDefined(es: seq<Effort>)
    requires AllPositive(es)
    ensures DriftOf(es).Some? <==> exists j :: 0 <= j < |es| && es[j].minute.Present? && es[j].minute.value <= 60.0
    ensures DriftOf(es).Some? ==> DriftOf(es).value < 100.0
  {
    EarlyWindow(es);
    if |EarlyEfficiencies(es)| > 0 {
      DriftBelowHundred(es);
    } else {
      assert Known(EarlyEfficiencies(es)) == [];
    }
  }

  lemma DriftBelowHundred(es: seq<Effort>)
    requires AllPositive(es) && |EarlyEfficiencies(es)| > 0
    ensures DriftOf(es).Some? && DriftOf(es).value < 100.0
  {
    EarlyWindow(es);
    var t := LastMinute(es).value;
    var j :| 0 <= j < |es| && es[j].minute == Present(t);
    LateWindow(es, t - 60.0, j);
    MeanOfPositive(EarlyEfficiencies(es));
    MeanOfPositive(LateEfficiencies(es, t - 60.0));
    var first := MeanOf(EarlyEfficiencies(es)).value;
    var last := MeanOf(LateEfficiencies(es, t - 60.0)).value;
    DropBelowHundred(first, last);
  }

  /**
   * With positive efficiencies on the active rows, the drift of the active
   * rows is defined exactly when one of them lies within the first hour.
   */
  lemma ActiveDrift(time: Column, hr: Column, effort: Column)
    requires |time| == |hr| == |effort|
    ensures DriftOf(ActiveEfforts(time, hr, effort)).Some? <==>
      exists q :: 0 <= q < |hr| && Active(hr[q], effort[q]) && time[q].Present? && time[q].value <= 60.0
    ensures DriftOf(ActiveEfforts(time, hr, effort)).Some? ==> DriftOf(ActiveEfforts(time, hr, effort)).value < 100.0
  {
    var es := ActiveEfforts(time, hr, effort);
    var rs := Where(ActiveMask(hr, effort), 0);
    ActiveEffortsAt(time, hr, effort);
    assert AllPositive(es);
    DriftDefined(es);
    if exists q :: 0 <= q < |hr| && Active(hr[q], effort[q]) && time[q].Present? && time[q].value <= 60.0 {
      var q :| 0 <= q < |hr| && Active(hr[q], effort[q]) && time[q].Present? && time[q].value <= 60.0;
      var j :| 0 <= j < |rs| && rs[j] == q;
      assert es[j].minute == time[q];
    }
    if DriftOf(es).Some? {
      var j :| 0 <= j < |es| && es[j].minute.Present? && es[j].minute.value <= 60.0;
      assert es[j].minute == time[rs[j]];
      assert Active(hr[rs[j]], effort[rs[j]]);
    }
  }

  /**
   * A table without a smoothed series but with speed, altitude and heart rate
   * gets the drift of its active rows.
   */
  lemma EffortDriftComputed(f: Frame)
    requires WellFormed(f) && ElapsedMinutes(f).Success?
    requires EfSmooth !in f.columns
    requires EnhancedAltitude in f.columns && EnhancedSpeed in f.columns && HeartRate in f.columns
    ensures EffortDrift(f) == Success(DriftOf(ActiveEfforts(ElapsedMinutes(f).value, f.columns[HeartRate],
      EffortSpeed(f.columns[EnhancedSpeed], f.columns[EnhancedAltitude]))))
  {
  }

  /**
   * A table that carries a smoothed series and its efficiencies gets the drift
   * of those efficiencies, row by row; without the efficiencies it is an error.
   */
  lemma EffortDriftGiven(f: Frame)
    requires WellFormed(f) && ElapsedMinutes(f).Success? && EfSmooth in f.columns
    ensures EfficiencyEffort !in f.columns ==> EffortDrift(f) == Failure(MissingColumn(EfficiencyEffort))
    ensures EfficiencyEffort in f.columns ==>
      EffortDrift(f) == Success(DriftOf(GivenEfforts(ElapsedMinutes(f).value, f.columns[EfficiencyEffort])))
  {
  }

  /**
   * The drift of a table computed from its own rows: defined exactly when an
   * active row lies within the first hour, and then a drop below 100%.
   */
  lemma EffortDriftBounds(f: Frame)
    requires WellFormed(f) && ElapsedMinutes(f).Success?
    requires EfSmooth !in f.columns
    requires EnhancedAltitude in f.columns && EnhancedSpeed in f.columns && HeartRate in f.columns
    ensures EffortDrift(f).Success?
    ensures
      var time := ElapsedMinutes(f).value;
      var hr := f.columns[HeartRate];
      var effort := EffortSpeed(f.columns[EnhancedSpeed], f.columns[EnhancedAltitude]);
      EffortDrift(f).value.Some? <==>
        exists q :: 0 <= q < f.rows && Active(hr[q], effort[q]) && time[q].Present? && time[q].value <= 60.0
    ensures EffortDrift(f).value.Some? ==> EffortDrift(f).value.value < 100.0
  {
    var time := ElapsedMinutes(f).value;
    var hr := f.columns[HeartRate];
    var effort := EffortSpeed(f.columns[EnhancedSpeed], f.columns[EnhancedAltitude]);
    EffortDriftComputed(f);
    ActiveDrift(time, hr, effort);
  }

  /**
   * The errors, in the order the columns are read: no elapsed time without a
   * timestamp index or an elapsed-minutes column, then the altitude, the
   * speed and the heart rate.
   */
  lemma EffortDriftErrors(f: Frame)
    requires WellFormed(f)
    ensures TimeMin !in f.columns && f.index.RangeIndex? ==> EffortDrift(f) == Failure(NotTimeIndexed)
    ensures TimeMin !in f.columns && f.index == TimeIndex([]) ==> EffortDrift(f) == Failure(EmptyResult)
    ensures ElapsedMinutes(f).Success? && EfSmooth !in f.columns ==>
      (EnhancedAltitude !in f.columns ==> EffortDrift(f) == Failure(MissingColumn(EnhancedAltitude))) &&
      (EnhancedAltitude in f.columns && EnhancedSpeed !in f.columns ==>
        EffortDrift(f) == Failure(MissingColumn(EnhancedSpeed))) &&
      (EnhancedAltitude in f.columns && EnhancedSpeed in f.columns && HeartRate !in f.columns ==>
        EffortDrift(f) == Failure(MissingColumn(HeartRate)))
  {
  }

  // ---------------------------------------------------------------------------
  // Pace by gradient
  // ---------------------------------------------------------------------------

  /** One kept row: its grade bin and its pace in minutes per kilometre. */
  datatype PacePoint = PacePoint(bin: int, pace: real)

  /** A row is kept when its grade-adjusted speed is above 3 km/h. */
  predicate Fast(gap: Sample)
  {
    gap.Present? && gap.value * 3.6 > 3.0
  }

  function FastMask(gap: Column): (m: seq<bool>)
    ensures |m| == |gap| && forall i :: 0 <= i < |m| ==> m[i] == Fast(gap[i])
  {
    seq(|gap|, i requires 0 <= i < |gap| => Fast(gap[i]))
  }

  /**
   * The kept rows with their pace and their grade rounded to an integer bin.
   * A kept row without a grade cannot be binned, which is an error.
   */
  function PacePoints(gap: Column, slope: Column): Result<seq<PacePoint>, PipelineError>
    requires |gap| == |slope|
  {
    var rs := Where(FastMask(gap), 0);
    if exists j :: 0 <= j < |rs| && slope[rs[j]].Missing? then Failure(MissingBin)
    else Success(seq(|rs|, j requires 0 <= j < |rs| =>
      PacePoint(RoundHalfEven(slope[rs[j]].value), 60.0 / (gap[rs[j]].value * 3.6))))
  }

  /** The points whose bin lies in [-40, 40]. */
  function InBinRange(points: seq<PacePoint>): (r: seq<PacePoint>)
    ensures forall k :: 0 <= k < |r| ==> -40 <= r[k].bin <= 40 && r[k] in points
    ensures forall p :: p in points && -40 <= p.bin <= 40 ==> p in r
  {
    if points == [] then []
    else (if -40 <= points[0].bin <= 40 then [points[0]] else []) + InBinRange(points[1..])
  }

  /** The paces of the points in bin `b`, in order. */
  function PacesIn(points: seq<PacePoint>, b: int): (r: seq<real>)
    ensures (exists p :: p in points && p.bin == b) ==> |r| > 0
  {
    if points == [] then []
    else (if points[0].bin == b then [points[0].pace] else []) + PacesIn(points[1..], b)
  }

  function BinsOf(points: seq<PacePoint>): set<int>
  {
    set p | p in points :: p.bin
  }

  /** Grouping by bin and taking the median: the median pace of each bin that has a point. */
  function BinMedians(points: seq<PacePoint>): map<int, real>
  {
    map b | b in BinsOf(points) :: Median(PacesIn(points, b))
  }

  /**
   * The pace table of a table: the grade-adjusted speed in km/h, only above
   * 3 km/h, its pace, binned by the rounded grade, bins outside [-40, 40]
   * dropped, the median pace per bin.
   */
  function PaceByGradient(cols: ColumnMap, rows: nat): Result<map<int, real>, PipelineError>
    requires Rectangular(cols, rows)
  {
    if GapSpeed !in cols then Failure(MissingColumn(GapSpeed))
    else if SlopeSmooth !in cols then Failure(MissingColumn(SlopeSmooth))
    else match PacePoints(cols[GapSpeed], cols[SlopeSmooth])
      case Failure(e) => Failure(e)
      case Success(points) => Success(BinMedians(InBinRange(points)))
  }

  /** A speed above 3 km/h is a pace above 0 and below 20 minutes per kilometre. */
  lemma PaceBounds(kmh: real)
    requires kmh > 3.0
    ensures 0.0 < 60.0 / kmh < 20.0
  {
    assert 60.0 / kmh * kmh == 60.0;
  }

  /** Binning fails exactly when a kept row has no grade. */
  lemma PacePointsFailure(gap: Column, slope: Column)
    requires |gap| == |slope|
    ensures PacePoints(gap, slope).Failure? <==> exists q :: 0 <= q < |gap| && Fast(gap[q]) && slope[q].Missing?
  {
    var rs := Where(FastMask(gap), 0);
    if exists q :: 0 <= q < |gap| && Fast(gap[q]) && slope[q].Missing? {
      var q :| 0 <= q < |gap| && Fast(gap[q]) && slope[q].Missing?;
      assert q in rs;
      var j :| 0 <= j < |rs| && rs[j] == q;
    }
  }

  /**
   * The pace points are the kept rows, in order: each has the rounded grade
   * of its row as its bin and 60 over its km/h speed as its pace, which lies
   * strictly between 0 and 20.
   */
  lemma PacePointsAt(gap: Column, slope: Column)
    requires |gap| == |slope| && PacePoints(gap, slope).Success?
    ensures var rs := Where(FastMask(gap), 0);
      var points := PacePoints(gap, slope).value;
      |points| == |rs| &&
      (forall q :: 0 <= q < |gap| ==> (q in rs <==> Fast(gap[q]))) &&
      (forall j :: 0 <= j < |rs| ==>
        points[j].bin == RoundHalfEven(slope[rs[j]].value) &&
        points[j].pace == 60.0 / (gap[rs[j]].value * 3.6) &&
        0.0 < points[j].pace < 20.0)
  {
    var rs := Where(FastMask(gap), 0);
    forall j | 0 <= j < |rs| ensures 0.0 < 60.0 / (gap[rs[j]].value * 3.6) < 20.0 {
      assert Fast(gap[rs[j]]);
      PaceBounds(gap[rs[j]].value * 3.6);
    }
  }

  lemma {:induction false} PacesInPoints(points: seq<PacePoint>, b: int)
    ensures forall k :: 0 <= k < |PacesIn(points, b)| ==> PacePoint(b, PacesIn(points, b)[k]) in points
  {
    if points != [] {
      PacesInPoints(points[1..], b);
      var head := if points[0].bin == b then [points[0].pace] else [];
      assert PacesIn(points, b) == head + PacesIn(points[1..], b);
    }
  }

  /** The paces of bin `b` are those of its points, each as often as its point occurs. */
  lemma {:induction false} PacesInCount(points: seq<PacePoint>, b: int, v: real)
    ensures multiset(PacesIn(points, b))[v] == multiset(points)[PacePoint(b, v)]
  {
    if points != [] {
      PacesInCount(points[1..], b, v);
      var head := if points[0].bin == b then [points[0].pace] else [];
      assert PacesIn(points, b) == head + PacesIn(points[1..], b);
      assert points == [points[0]] + points[1..];
    }
  }

  /** Dropping the bins outside [-40, 40] keeps every other point as often as it occurs. */
  lemma {:induction false} InBinRangeCount(points: seq<PacePoint>, p: PacePoint)
    ensures multiset(InBinRange(points))[p] == if -40 <= p.bin <= 40 then multiset(points)[p] else 0
  {
    if points != [] {
      InBinRangeCount(points[1..], p);
      assert points == [points[0]] + points[1..];
    }
  }

  /** For a bin in [-40, 40], the range filter changes nothing about its paces. */
  lemma {:induction false} PacesInRange(points: seq<PacePoint>, b: int)
    requires -40 <= b <= 40
    ensures PacesIn(InBinRange(points), b) == PacesIn(points, b)
  {
    if points != [] {
      PacesInRange(points[1..], b);
      var rest := InBinRange(points[1..]);
      if -40 <= points[0].bin <= 40 {
        var kept := [points[0]] + rest;
        assert InBinRange(points) == kept;
        assert kept[0] == points[0] && kept[1..] == rest;
      } else {
        assert InBinRange(points) == rest;
      }
    }
  }

  /**
   * The value of a bin of the pace table is the median of any list that holds
   * exactly the paces of that bin's points, each as often as its point occurs
   * among the kept rows.
   */
  lemma BinMedianIsMedian(points: seq<PacePoint>, b: int, xs: seq<real>)
    requires b in BinMedians(InBinRange(points))
    requires forall v :: multiset(xs)[v] == multiset(points)[PacePoint(b, v)]
    ensures |xs| > 0 && BinMedians(InBinRange(points))[b] == Median(xs)
  {
    KeptBin(points, b);
    var ys := PacesIn(InBinRange(points), b);
    KeptPacesMultiset(points, b, xs);
    MedianPermutation(ys, xs);
  }

  lemma KeptBin(points: seq<PacePoint>, b: int)
    requires b in BinsOf(InBinRange(points))
    ensures -40 <= b <= 40 && |PacesIn(InBinRange(points), b)| > 0
  {
    var p :| p in InBinRange(points) && p.bin == b;
  }

  lemma KeptPacesMultiset(points: seq<PacePoint>, b: int, xs: seq<real>)
    requires -40 <= b <= 40
    requires forall v :: multiset(xs)[v] == multiset(points)[PacePoint(b, v)]
    ensures multiset(PacesIn(InBinRange(points), b)) == multiset(xs)
  {
    forall v ensures multiset(PacesIn(InBinRange(points), b))[v] == multiset(xs)[v] {
      KeptPacesCount(points, b, v);
    }
  }

  lemma KeptPacesCount(points: seq<PacePoint>, b: int, v: real)
    requires -40 <= b <= 40
    ensures multiset(PacesIn(InBinRange(points), b))[v] == multiset(points)[PacePoint(b, v)]
  {
    PacesInCount(InBinRange(points), b, v);
    InBinRangeCount(points, PacePoint(b, v));
  }

  /**
   * Every bin of the pace table lies in [-40, 40] and holds a pace strictly
   * between 0 and 20; a bin is present exactly when some kept point in range
   * has it, and its value is the median of the paces of the points with that bin.
   */
  lemma BinMediansBounds(points: seq<PacePoint>)
    requires forall p :: p in points ==> 0.0 < p.pace < 20.0
    ensures forall b :: b in BinMedians(InBinRange(points)) <==> exists p :: p in points && p.bin == b && -40 <= b <= 40
    ensures forall b :: b in BinMedians(InBinRange(points)) ==>
      -40 <= b <= 40 && BinMedians(InBinRange(points))[b] == Median(PacesIn(points, b)) &&
      0.0 < BinMedians(InBinRange(points))[b] < 20.0
  {
    var kept := InBinRange(points);
    forall b | b in BinsOf(kept)
      ensures -40 <= b <= 40 && PacesIn(kept, b) == PacesIn(points, b) && 0.0 < Median(PacesIn(kept, b)) < 20.0
    {
      BinMedianAt(points, b);
    }
  }

  lemma BinMedianAt(points: seq<PacePoint>, b: int)
    requires forall p :: p in points ==> 0.0 < p.pace < 20.0
    requires b in BinsOf(InBinRange(points))
    ensures -40 <= b <= 40 && PacesIn(InBinRange(points), b) == PacesIn(points, b)
    ensures 0.0 < Median(PacesIn(InBinRange(points), b)) < 20.0
  {
    var kept := InBinRange(points);
    var p :| p in kept && p.bin == b;
    PacesInRange(points, b);
    PacesInPoints(kept, b);
    MedianBetween(PacesIn(kept, b), 0.0, 20.0);
  }

  /**
   * A table whose smoothed grade has no gaps, like every table loaded with a
   * distance column, always yields a pace table once it has a grade-adjusted speed.
   */
  lemma PaceTableDefined(cols: ColumnMap, rows: nat)
    requires Rectangular(cols, rows) && GapSpeed in cols && SlopeSmooth in cols && NoMissing(cols[SlopeSmooth])
    ensures PaceByGradient(cols, rows).Success?
  {
    PacePointsFailure(cols[GapSpeed], cols[SlopeSmooth]);
  }

  /**
   * The pace table of a table whose grade has no gaps: its bins are exactly
   * the rounded grades in [-40, 40] of the rows faster than 3 km/h, and each
   * holds the median of their paces, strictly between 0 and 20 min/km.
   */
  lemma PaceTable(cols: ColumnMap, rows: nat)
    requires Rectangular(cols, rows) && GapSpeed in cols && SlopeSmooth in cols && NoMissing(cols[SlopeSmooth])
    ensures PaceByGradient(cols, rows).Success?
    ensures var gap, slope, table := cols[GapSpeed], cols[SlopeSmooth], PaceByGradient(cols, rows).value;
      forall b :: b in table <==>
        -40 <= b <= 40 && exists q :: 0 <= q < rows && Fast(gap[q]) && RoundHalfEven(slope[q].value) == b
    ensures forall b :: b in PaceByGradient(cols, rows).value ==>
      -40 <= b <= 40 && 0.0 < PaceByGradient(cols, rows).value[b] < 20.0
  {
    var gap, slope := cols[GapSpeed], cols[SlopeSmooth];
    PacePointsFailure(gap, slope);
    var points := PacePoints(gap, slope).value;
    PacePointsAt(gap, slope);
    PointBins(gap, slope);
    BinMediansBounds(points);
  }

  /** The bins of the pace points are the rounded grades of the kept rows. */
  lemma PointBins(gap: Column, slope: Column)
    requires |gap| == |slope| && PacePoints(gap, slope).Success?
    ensures forall b :: b in BinsOf(PacePoints(gap, slope).value) <==>
      exists q :: 0 <= q < |gap| && Fast(gap[q]) && slope[q].Present? && RoundHalfEven(slope[q].value) == b
    ensures forall p :: p in PacePoints(gap, slope).value ==> 0.0 < p.pace < 20.0
  {
    PacePointsAt(gap, slope);
    PointBinsSound(gap, slope);
    PointBinsComplete(gap, slope);
  }

  lemma PointBinsSound(gap: Column, slope: Column)
    requires |gap| == |slope| && PacePoints(gap, slope).Success?
    ensures forall b :: b in BinsOf(PacePoints(gap, slope).value) ==>
      exists q :: 0 <= q < |gap| && Fast(gap[q]) && slope[q].Present? && RoundHalfEven(slope[q].value) == b
  {
    var points := PacePoints(gap, slope).value;
    var rs := Where(FastMask(gap), 0);
    PacePointsFailure(gap, slope);
    forall b | b in BinsOf(points)
      ensures exists q :: 0 <= q < |gap| && Fast(gap[q]) && slope[q].Present? && RoundHalfEven(slope[q].value) == b
    {
      var p :| p in points && p.bin == b;
      var j :| 0 <= j < |points| && points[j] == p;
      assert Fast(gap[rs[j]]);
    }
  }

  lemma PointBinsComplete(gap: Column, slope: Column)
    requires |gap| == |slope| && PacePoints(gap, slope).Success?
    ensures forall q :: 0 <= q < |gap| && Fast(gap[q]) && slope[q].Present? ==>
      RoundHalfEven(slope[q].value) in BinsOf(PacePoints(gap, slope).value)
  {
    var points := PacePoints(gap, slope).value;
    var rs := Where(FastMask(gap), 0);
    forall q | 0 <= q < |gap| && Fast(gap[q]) && slope[q].Present?
      ensures RoundHalfEven(slope[q].value) in BinsOf(points)
    {
      var j :| 0 <= j < |rs| && rs[j] == q;
      assert points[j] in points;
    }
  }

  /** The pace table needs a grade-adjusted speed, then a grade. */
  lemma PaceByGradientErrors(cols: ColumnMap, rows: nat)
    requires Rectangular(cols, rows)
    ensures GapSpeed !in cols ==> PaceByGradient(cols, rows) == Failure(MissingColumn(GapSpeed))
    ensures GapSpeed in cols && SlopeSmooth !in cols ==> PaceByGradient(cols, rows) == Failure(MissingColumn(SlopeSmooth))
  {
  }
}
