/**
 * The loading and enrichment pipeline as pure stages over a table's columns.
 * Each stage is one step of loading an activity: decoding coordinates,
 * indexing by timestamp, filling gaps, deriving speed, altitude change and
 * grade, then the energy-cost and cadence enrichments.
 */
module Pipeline {
  import opened Wrappers
  import opened Stats
  import opened Columns
  import opened GapFill
  import opened Rolling
  import opened Energy
  import opened Frames

  const PositionLat := "position_lat"
  const PositionLong := "position_long"
  const Latitude := "latitude"
  const Longitude := "longitude"
  const Timestamp := "timestamp"
  const HeartRate := "heart_rate"
  const EnhancedSpeed := "enhanced_speed"
  const EnhancedAltitude := "enhanced_altitude"
  const Cadence := "cadence"
  const Distance := "distance"
  const SpeedKmh := "speed_kmh"
  const DeltaAlt := "delta_alt"
  const DeltaDist := "delta_dist"
  const SlopeRaw := "slope_raw"
  const SlopeSmooth := "slope_smooth"
  const EnergyCostName := "energy_cost"
  const GapSpeed := "gap_speed"

  /** The channels whose gaps are filled, in the order they are filled. */
  const GapChannels: seq<string> := [HeartRate, EnhancedSpeed, "accumulated_power", "power",
    EnhancedAltitude, "step_length", Cadence, Latitude, Longitude]

  /** Degrees per semicircle unit: a full 2^31 semicircles make 180 degrees. */
  const SemicircleFactor: real := 180.0 / 2147483648.0

  /** Half-width of the centred slope window of 25 samples. */
  const SlopeHalfWindow: nat := 12

  datatype PipelineError =
    | ParseError               // the activity file could not be opened
    | EmptyResult              // the loaded table has no rows or no columns
    | MissingColumn(name: string)
    | NotTimeIndexed           // elapsed time asked of a table without a timestamp index
    | MissingBin               // a missing grade cannot become an integer bin

  /** What the decoder gives for an activity file: nothing, or its record messages in order. */
  datatype FitSource = Unreadable | Decoded(records: seq<Record>)

  // ---------------------------------------------------------------------------
  // Coordinate decoding
  // ---------------------------------------------------------------------------

  /** Replaces the two semicircle columns by degree columns, when both are present. */
  function WithDegrees(cols: ColumnMap): ColumnMap
  {
    if PositionLat in cols && PositionLong in cols then
      cols[Latitude := Scale(cols[PositionLat], SemicircleFactor)]
          [Longitude := Scale(cols[PositionLong], SemicircleFactor)] - {PositionLat, PositionLong}
    else cols
  }

  /** A quarter of the semicircle range is exactly 90 degrees; its negative end is -180. */
  lemma SemicircleLandmarks()
    ensures 1073741824.0 * SemicircleFactor == 90.0
    ensures -2147483648.0 * SemicircleFactor == -180.0
  {
  }

  /**
   * With both raw columns present, the raw columns are gone, degree columns
   * take their place, and every other column is left as it was; with either
   * missing, nothing changes.
   */
  lemma DegreesDecoded(cols: ColumnMap)
    ensures PositionLat in cols && PositionLong in cols ==>
      WithDegrees(cols).Keys == cols.Keys - {PositionLat, PositionLong} + {Latitude, Longitude}
    ensures PositionLat in cols && PositionLong in cols ==>
      |WithDegrees(cols)[Latitude]| == |cols[PositionLat]| &&
      |WithDegrees(cols)[Longitude]| == |cols[PositionLong]| &&
      (forall i :: 0 <= i < |cols[PositionLat]| ==>
        WithDegrees(cols)[Latitude][i].Present? == cols[PositionLat][i].Present?) &&
      (forall i :: 0 <= i < |cols[PositionLong]| ==>
        WithDegrees(cols)[Longitude][i].Present? == cols[PositionLong][i].Present?) &&
      (forall i :: 0 <= i < |cols[PositionLat]| && cols[PositionLat][i].Present? ==>
        WithDegrees(cols)[Latitude][i].value == cols[PositionLat][i].value * 180.0 / 2147483648.0) &&
      (forall i :: 0 <= i < |cols[PositionLong]| && cols[PositionLong][i].Present? ==>
        WithDegrees(cols)[Longitude][i].value == cols[PositionLong][i].value * 180.0 / 2147483648.0)
    ensures forall name :: name in cols && name !in {PositionLat, PositionLong, Latitude, Longitude} ==>
      name in WithDegrees(cols) && WithDegrees(cols)[name] == cols[name]
    ensures !(PositionLat in cols && PositionLong in cols) ==> WithDegrees(cols) == cols
  {
  }

  /** Decoding loses nothing: scaling the degrees back gives the raw semicircles. */
  lemma DegreesRoundTrip(cols: ColumnMap)
    requires PositionLat in cols && PositionLong in cols
    ensures Scale(WithDegrees(cols)[Latitude], 2147483648.0 / 180.0) == cols[PositionLat]
    ensures Scale(WithDegrees(cols)[Longitude], 2147483648.0 / 180.0) == cols[PositionLong]
  {
    var lat := WithDegrees(cols)[Latitude];
    var long := WithDegrees(cols)[Longitude];
    assert Scale(lat, 2147483648.0 / 180.0) == cols[PositionLat] by {
      forall i | 0 <= i < |lat| ensures Scale(lat, 2147483648.0 / 180.0)[i] == cols[PositionLat][i] {
        if cols[PositionLat][i].Present? {
          var x := cols[PositionLat][i].value;
          assert x * SemicircleFactor * (2147483648.0 / 180.0) == x;
        }
      }
    }
    assert Scale(long, 2147483648.0 / 180.0) == cols[PositionLong] by {
      forall i | 0 <= i < |long| ensures Scale(long, 2147483648.0 / 180.0)[i] == cols[PositionLong][i] {
        if cols[PositionLong][i].Present? {
          var x := cols[PositionLong][i].value;
          assert x * SemicircleFactor * (2147483648.0 / 180.0) == x;
        }
      }
    }
  }

  // ---------------------------------------------------------------------------
  // Timestamp index
  // ---------------------------------------------------------------------------

  /** The timestamp column, when present, stops being a column and becomes the index. */
  function WithTimeIndex(f: Frame): (r: Frame)
    ensures r.rows == f.rows
    ensures WellFormed(f) ==> WellFormed(r)
  {
    if Timestamp in f.columns then Frame(f.columns - {Timestamp}, f.rows, TimeIndex(f.columns[Timestamp]))
    else f
  }

  /**
   * With a timestamp column, its samples become the index and it stops being
   * a column, every other column unchanged; without one, nothing changes.
   */
  lemma TimeIndexMoves(f: Frame)
    ensures Timestamp in f.columns ==>
      WithTimeIndex(f).index == TimeIndex(f.columns[Timestamp]) &&
      WithTimeIndex(f).columns.Keys == f.columns.Keys - {Timestamp} &&
      forall name :: name in f.columns && name != Timestamp ==> WithTimeIndex(f).columns[name] == f.columns[name]
    ensures Timestamp !in f.columns ==> WithTimeIndex(f) == f
  {
  }

  // ---------------------------------------------------------------------------
  // Gap filling
  // ---------------------------------------------------------------------------

  /** Each listed channel present has its gaps filled; every other column is kept. */
  function FillChannels(cols: ColumnMap): ColumnMap
  {
    map name | name in cols :: if name in GapChannels then FillGaps(cols[name]) else cols[name]
  }

  /**
   * The fill touches exactly the listed channels: the columns stay the same,
   * an unlisted column is unchanged, and a listed channel keeps its known
   * samples and, when it has one, is left with no missing sample.
   */
  lemma FillChannelsEffect(cols: ColumnMap, name: string)
    requires name in cols
    ensures FillChannels(cols).Keys == cols.Keys
    ensures name !in GapChannels ==> FillChannels(cols)[name] == cols[name]
    ensures name in GapChannels ==>
      |FillChannels(cols)[name]| == |cols[name]| &&
      (forall i :: 0 <= i < |cols[name]| && cols[name][i].Present? ==> FillChannels(cols)[name][i] == cols[name][i])
    ensures name in GapChannels && (exists w :: 0 <= w < |cols[name]| && cols[name][w].Present?) ==>
      NoMissing(FillChannels(cols)[name])
    ensures name in GapChannels && AllMissing(cols[name]) ==> FillChannels(cols)[name] == cols[name]
  {
    if name in GapChannels {
      FillKeepsKnown(cols[name]);
      if w :| 0 <= w < |cols[name]| && cols[name][w].Present? {
        FillCompletes(cols[name], w);
      }
      if AllMissing(cols[name]) {
        FillAllMissing(cols[name]);
      }
    }
  }

  /** Filling a filled table again changes nothing. */
  lemma FillChannelsIdempotent(cols: ColumnMap)
    ensures FillChannels(FillChannels(cols)) == FillChannels(cols)
  {
    forall name | name in cols && name in GapChannels
      ensures FillGaps(FillGaps(cols[name])) == FillGaps(cols[name])
    {
      FillIdempotent(cols[name]);
    }
  }

  lemma FillChannelsRectangular(cols: ColumnMap, rows: nat)
    requires Rectangular(cols, rows)
    ensures Rectangular(FillChannels(cols), rows)
  {
    forall name | name in cols && name in GapChannels ensures |FillGaps(cols[name])| == rows {
      FillKeepsKnown(cols[name]);
    }
  }

  // ---------------------------------------------------------------------------
  // Derived speed, altitude change and grade
  // ---------------------------------------------------------------------------

  /** Speed in km/h from the speed in m/s. */
  function WithSpeedKmh(cols: ColumnMap): ColumnMap
  {
    if EnhancedSpeed in cols then cols[SpeedKmh := Scale(cols[EnhancedSpeed], 3.6)] else cols
  }

  function WithDeltaAlt(cols: ColumnMap): ColumnMap
  {
    if EnhancedAltitude in cols then cols[DeltaAlt := Diff(cols[EnhancedAltitude])] else cols
  }

  /** The distance step per row, with a zero step turned into a missing sample. */
  function DistanceSteps(distance: Column): (dd: Column)
    ensures |dd| == |distance|
    ensures forall i :: 0 <= i < |dd| ==> dd[i] != Present(0.0)
  {
    ZeroToMissing(Diff(distance))
  }

  /**
   * The grade in percent at each row and its smoothed form: a centred mean of
   * 25 samples, clipped to [-50, 30], with a missing mean becoming 0.
   * A distance column without an altitude change to divide is an error.
   */
  function WithSlope(cols: ColumnMap, rows: nat): Result<ColumnMap, PipelineError>
    requires Rectangular(cols, rows)
  {
    if Distance !in cols then Success(cols)
    else if DeltaAlt !in cols then Failure(MissingColumn(DeltaAlt))
    else
      var dd := DistanceSteps(cols[Distance]);
      var raw := Percent(cols[DeltaAlt], dd);
      var smooth := FillMissing(Clip(CentredMean(raw, SlopeHalfWindow), -50.0, 30.0), 0.0);
      Success(cols[DeltaDist := dd][SlopeRaw := raw][SlopeSmooth := smooth])
  }

  /** The first row has no previous row to differ from. */
  lemma DiffFirstMissing(c: Column)
    requires |c| > 0
    ensures Diff(c)[0].Missing?
  {
  }

  /**
   * The raw grade at row `i`: missing at the first row and where the distance
   * did not change, and otherwise the altitude change over the distance change
   * in percent.
   */
  lemma SlopeRawAt(cols: ColumnMap, rows: nat, i: nat)
    requires Rectangular(cols, rows) && Distance in cols && DeltaAlt in cols && i < rows
    ensures WithSlope(cols, rows).Success?
    ensures SlopeRaw in WithSlope(cols, rows).value && DeltaDist in WithSlope(cols, rows).value
    ensures i == 0 ==> WithSlope(cols, rows).value[DeltaDist][i].Missing?
    ensures i == 0 ==> WithSlope(cols, rows).value[SlopeRaw][i].Missing?
    ensures Diff(cols[Distance])[i] == Present(0.0) ==>
      WithSlope(cols, rows).value[DeltaDist][i].Missing? && WithSlope(cols, rows).value[SlopeRaw][i].Missing?
    ensures cols[DeltaAlt][i].Present? && Diff(cols[Distance])[i].Present? && Diff(cols[Distance])[i] != Present(0.0) ==>
      WithSlope(cols, rows).value[SlopeRaw][i] ==
        Present(cols[DeltaAlt][i].value / Diff(cols[Distance])[i].value * 100.0)
  {
  }

  /** With a distance column but no altitude change, loading fails naming the missing column. */
  lemma SlopeNeedsAltitude(cols: ColumnMap, rows: nat)
    requires Rectangular(cols, rows) && Distance in cols && DeltaAlt !in cols
    ensures WithSlope(cols, rows) == Failure(MissingColumn(DeltaAlt))
  {
  }

  /**
   * The smoothed grade has no missing sample and lies in [-50, 30]. At a row
   * whose 25-sample window lies inside the table with every raw grade known it
   * is the clipped window mean, and it is 0 at every other row.
   */
  lemma SlopeSmoothAt(cols: ColumnMap, rows: nat, i: nat)
    requires Rectangular(cols, rows) && Distance in cols && DeltaAlt in cols && i < rows
    ensures WithSlope(cols, rows).Success? && SlopeSmooth in WithSlope(cols, rows).value
    ensures
      var s := WithSlope(cols, rows).value[SlopeSmooth];
      |s| == rows && NoMissing(s) && forall q :: 0 <= q < rows ==> -50.0 <= s[q].value <= 30.0
    ensures
      var raw := WithSlope(cols, rows).value[SlopeRaw];
      var s := WithSlope(cols, rows).value[SlopeSmooth];
      if 12 <= i && i + 12 < rows && (forall q :: i - 12 <= q <= i + 12 ==> raw[q].Present?) then
        s[i] == Present(Clamp(Sum(Known(raw[i - 12 .. i + 13])) / 25.0, -50.0, 30.0))
      else s[i] == Present(0.0)
  {
    var raw := WithSlope(cols, rows).value[SlopeRaw];
    CentredMeanAt(raw, SlopeHalfWindow, i);
  }

  /** Every stage before the grade keeps the columns one sample per row. */
  lemma DerivedRectangular(cols: ColumnMap, rows: nat)
    requires Rectangular(cols, rows)
    ensures Rectangular(WithSpeedKmh(cols), rows)
    ensures Rectangular(WithDeltaAlt(cols), rows)
    ensures Rectangular(WithDegrees(cols), rows)
    ensures WithSlope(cols, rows).Success? ==> Rectangular(WithSlope(cols, rows).value, rows)
  {
  }

  // ---------------------------------------------------------------------------
  // Loading
  // ---------------------------------------------------------------------------

  /** The derived columns: speed in km/h, then the altitude change, then the grade. */
  function Features(cols: ColumnMap, rows: nat): Result<ColumnMap, PipelineError>
    requires Rectangular(cols, rows)
  {
    DerivedRectangular(cols, rows);
    DerivedRectangular(WithSpeedKmh(cols), rows);
    WithSlope(WithDeltaAlt(WithSpeedKmh(cols)), rows)
  }

  /**
   * Loading an activity: the table of its records, returned as it is when
   * empty, and otherwise with coordinates decoded, timestamps as the index,
   * gaps filled and the speed, altitude-change and grade columns derived.
   */
  function LoadFitSpec(src: FitSource): Result<Frame, PipelineError>
  {
    match src
    case Unreadable => Failure(ParseError)
    case Decoded(records) =>
      var f := FrameOf(RowsOf(records));
      if IsEmpty(f) then Success(f)
      else
        TableFromRecords(records, "", 0);
        DerivedRectangular(f.columns, f.rows);
        var g := WithTimeIndex(Frame(WithDegrees(f.columns), f.rows, f.index));
        FillChannelsRectangular(g.columns, g.rows);
        match Features(FillChannels(g.columns), g.rows)
        case Failure(e) => Failure(e)
        case Success(cols) => Success(Frame(cols, g.rows, g.index))
  }

  lemma FeaturesRectangular(cols: ColumnMap, rows: nat)
    requires Rectangular(cols, rows)
    ensures Features(cols, rows).Success? ==> Rectangular(Features(cols, rows).value, rows)
  {
    DerivedRectangular(cols, rows);
    DerivedRectangular(WithSpeedKmh(cols), rows);
    DerivedRectangular(WithDeltaAlt(WithSpeedKmh(cols)), rows);
  }

  /** A loaded table keeps one row per record and every column one sample per row. */
  lemma LoadFitShape(src: FitSource)
    ensures LoadFitSpec(src).Success? ==>
      src.Decoded? && LoadFitSpec(src).value.rows == |src.records| && WellFormed(LoadFitSpec(src).value)
  {
    if src.Decoded? {
      var f := FrameOf(RowsOf(src.records));
      if |src.records| > 0 {
        TableFromRecords(src.records, "", 0);
      }
      if !IsEmpty(f) {
        var g := WithTimeIndex(Frame(WithDegrees(f.columns), f.rows, f.index));
        DerivedRectangular(f.columns, f.rows);
        FillChannelsRectangular(g.columns, g.rows);
        FeaturesRectangular(FillChannels(g.columns), g.rows);
      }
    }
  }

  // ---------------------------------------------------------------------------
  // Energy enrichment
  // ---------------------------------------------------------------------------

  /** The cost multiplier of each known grade; a missing grade gives a missing cost. */
  function CostColumn(slope: Column): (c: Column)
    ensures |c| == |slope|
    ensures forall i :: 0 <= i < |c| ==> c[i].Present? == slope[i].Present?
  {
    seq(|slope|, i requires 0 <= i < |slope| => CostOf(slope[i]))
  }

  function CostOf(slope: Sample): Sample
  {
    if slope.Present? then Present(EnergyCost(slope.value)) else Missing
  }

  /**
   * The energy cost of the smoothed grade, when there is one, then the
   * grade-adjusted speed, when both the speed and a cost are there.
   */
  function WithEnergy(cols: ColumnMap, rows: nat): ColumnMap
    requires Rectangular(cols, rows)
  {
    var withCost := if SlopeSmooth in cols then cols[EnergyCostName := CostColumn(cols[SlopeSmooth])] else cols;
    if EnhancedSpeed in withCost && EnergyCostName in withCost then
      withCost[GapSpeed := Product(withCost[EnhancedSpeed], withCost[EnergyCostName])]
    else withCost
  }

  /**
   * Which columns the enrichment adds: a cost exactly when there is a smoothed
   * grade, a grade-adjusted speed exactly when there is also a speed; when a
   * column is missing, the step is skipped and nothing fails. No other column changes.
   */
  lemma EnergyColumns(cols: ColumnMap, rows: nat)
    requires Rectangular(cols, rows) && EnergyCostName !in cols && GapSpeed !in cols
    ensures EnergyCostName in WithEnergy(cols, rows) <==> SlopeSmooth in cols
    ensures GapSpeed in WithEnergy(cols, rows) <==> SlopeSmooth in cols && EnhancedSpeed in cols
    ensures WithEnergy(cols, rows).Keys - {EnergyCostName, GapSpeed} == cols.Keys
    ensures forall name :: name in cols ==> WithEnergy(cols, rows)[name] == cols[name]
    ensures Rectangular(WithEnergy(cols, rows), rows)
  {
  }

  /**
   * The grade-adjusted speed at a row is the speed times the cost of the
   * grade there: equal to the speed on flat ground and above it on any climb
   * up to 30%.
   */
  lemma GapSpeedAt(cols: ColumnMap, rows: nat, i: nat)
    requires Rectangular(cols, rows)
    requires SlopeSmooth in cols && EnhancedSpeed in cols && i < rows
    requires cols[SlopeSmooth][i].Present? && cols[EnhancedSpeed][i].Present?
    ensures GapSpeed in WithEnergy(cols, rows)
    ensures WithEnergy(cols, rows)[GapSpeed][i] ==
      Present(cols[EnhancedSpeed][i].value * EnergyCost(cols[SlopeSmooth][i].value))
    ensures cols[SlopeSmooth][i] == Present(0.0) ==> WithEnergy(cols, rows)[GapSpeed][i] == cols[EnhancedSpeed][i]
    ensures 0.0 < cols[SlopeSmooth][i].value <= 30.0 && cols[EnhancedSpeed][i].value > 0.0 ==>
      WithEnergy(cols, rows)[GapSpeed][i].value > cols[EnhancedSpeed][i].value
  {
    var speed := cols[EnhancedSpeed][i].value;
    var slope := cols[SlopeSmooth][i].value;
    GapSpeedValue(cols, rows, i);
    if slope == 0.0 {
      FlatCostIsOne();
    }
    if 0.0 < slope <= 30.0 && speed > 0.0 {
      UphillFaster(speed, slope, WithEnergy(cols, rows)[GapSpeed][i].value);
    }
  }

  lemma GapSpeedValue(cols: ColumnMap, rows: nat, i: nat)
    requires Rectangular(cols, rows)
    requires SlopeSmooth in cols && EnhancedSpeed in cols && i < rows
    requires cols[SlopeSmooth][i].Present? && cols[EnhancedSpeed][i].Present?
    ensures GapSpeed in WithEnergy(cols, rows)
    ensures WithEnergy(cols, rows)[GapSpeed][i] ==
      Present(cols[EnhancedSpeed][i].value * EnergyCost(cols[SlopeSmooth][i].value))
  {
    var e := WithEnergy(cols, rows);
    assert e[GapSpeed][i] == Times(cols[EnhancedSpeed][i], CostOf(cols[SlopeSmooth][i]));
  }

  /** A positive speed on a climb up to 30% is adjusted upwards. */
  lemma UphillFaster(speed: real, slope: real, gap: real)
    requires speed > 0.0 && 0.0 < slope <= 30.0 && gap == speed * EnergyCost(slope)
    ensures gap > speed
  {
    UphillCostsMore(slope);
    ScaledUp(speed, EnergyCost(slope), speed * EnergyCost(slope));
  }

  lemma ScaledUp(x: real, k: real, p: real)
    requires x > 0.0 && k > 1.0 && p == x * k
    ensures p > x
  {
    assert x * (k - 1.0) > 0.0;
  }

  // ---------------------------------------------------------------------------
  // Cadence
  // ---------------------------------------------------------------------------

  /** Cadence recorded per leg (median below 100) is doubled into steps per minute. */
  function CadenceSpm(cols: ColumnMap): ColumnMap
  {
    if Cadence !in cols then cols
    else match MedianOf(cols[Cadence])
      case Some(m) => if m < 100.0 then cols[Cadence := Scale(cols[Cadence], 2.0)] else cols
      case None => cols
  }

  /**
   * Cadence is doubled everywhere exactly when its median is below 100, which
   * doubles the median; otherwise, and when nothing is known, nothing changes.
   */
  lemma CadenceRule(cols: ColumnMap)
    requires Cadence in cols
    ensures CadenceSpm(cols).Keys == cols.Keys
    ensures forall name :: name in cols && name != Cadence ==> CadenceSpm(cols)[name] == cols[name]
    ensures MedianOf(cols[Cadence]).Some? && MedianOf(cols[Cadence]).value < 100.0 ==>
      |CadenceSpm(cols)[Cadence]| == |cols[Cadence]| &&
      (forall i :: 0 <= i < |cols[Cadence]| ==>
        CadenceSpm(cols)[Cadence][i] == if cols[Cadence][i].Present? then Present(2.0 * cols[Cadence][i].value) else Missing) &&
      MedianOf(CadenceSpm(cols)[Cadence]) == Some(2.0 * MedianOf(cols[Cadence]).value)
    ensures !(MedianOf(cols[Cadence]).Some? && MedianOf(cols[Cadence]).value < 100.0) ==> CadenceSpm(cols) == cols
  {
    MedianOfDoubled(cols[Cadence]);
  }

  /** A median of 80 becomes 160; a median of 150 is left alone. */
  lemma CadenceExamples()
    ensures CadenceSpm(map[Cadence := [Present(80.0)]]) == map[Cadence := [Present(160.0)]]
    ensures CadenceSpm(map[Cadence := [Present(150.0)]]) == map[Cadence := [Present(150.0)]]
  {
    assert Known([Present(80.0)]) == [80.0];
    assert Known([Present(150.0)]) == [150.0];
    assert Scale([Present(80.0)], 2.0) == [Present(160.0)];
  }

  // ---------------------------------------------------------------------------
  // The full preprocessing
  // ---------------------------------------------------------------------------

  /** Load, refuse an empty table, then add the energy columns and normalise cadence. */
  function PreprocessSpec(src: FitSource): Result<Frame, PipelineError>
  {
    match LoadFitSpec(src)
    case Failure(e) => Failure(e)
    case Success(f) =>
      if IsEmpty(f) then Failure(EmptyResult)
      else
        LoadFitShape(src);
        Success(Frame(CadenceSpm(WithEnergy(f.columns, f.rows)), f.rows, f.index))
  }

  /** A file that cannot be opened fails to parse; one without records, or whose records carry no field, has no result. */
  lemma PreprocessFailures(src: FitSource)
    ensures src.Unreadable? ==> PreprocessSpec(src) == Failure(ParseError)
    ensures src.Decoded? && (forall j :: 0 <= j < |src.records| ==> src.records[j] == []) ==>
      PreprocessSpec(src) == Failure(EmptyResult)
  {
    if src.Decoded? && forall j :: 0 <= j < |src.records| ==> src.records[j] == [] {
      NoFieldsEmpty(src.records);
    }
  }

  /** A preprocessed table has one row per record, at least one row and one column, and is rectangular. */
  lemma PreprocessShape(src: FitSource)
    ensures PreprocessSpec(src).Success? ==>
      src.Decoded? && PreprocessSpec(src).value.rows == |src.records| > 0 &&
      PreprocessSpec(src).value.columns != map[] && WellFormed(PreprocessSpec(src).value)
  {
    LoadFitShape(src);
    if PreprocessSpec(src).Success? {
      var f := LoadFitSpec(src).value;
      var e := WithEnergy(f.columns, f.rows);
      EnrichKeeps(f.columns, f.rows);
      CadenceKeeps(e);
      assert PreprocessSpec(src).value == Frame(CadenceSpm(e), f.rows, f.index);
    }
  }

  lemma EnrichKeeps(cols: ColumnMap, rows: nat)
    requires Rectangular(cols, rows)
    ensures cols.Keys <= WithEnergy(cols, rows).Keys
    ensures Rectangular(WithEnergy(cols, rows), rows)
  {
  }

  lemma CadenceKeeps(cols: ColumnMap)
    ensures CadenceSpm(cols).Keys == cols.Keys
    ensures forall name :: name in cols ==> |CadenceSpm(cols)[name]| == |cols[name]|
  {
  }
}
