/**
 * The loader and the enrichment steps as they run: the rows are collected
 * record by record, and one table object is then changed column by column.
 * Each step is proved to leave the table in the state the matching stage
 * of the pipeline describes.
 */
module TrailUtils {
  import opened Wrappers
  import opened Columns
  import opened GapFill
  import opened Rolling
  import opened Frames
  import opened Pipeline

  /** Flattens each record into a dictionary, field by field, and collects the dictionaries in order. */
  method CollectRows(records: seq<Record>) returns (rows: seq<Row>)
    ensures |rows| == |records|
    ensures forall j :: 0 <= j < |records| ==> rows[j] == RowOf(records[j])
  {
    rows := [];
    for j := 0 to |records|
      invariant |rows| == j
      invariant forall i :: 0 <= i < j ==> rows[i] == RowOf(records[i])
    {
      var rec := records[j];
      var row: Row := map[];
      for k := 0 to |rec|
        invariant row == RowOf(rec[..k])
      {
        assert rec[..k + 1][..k] == rec[..k];
        row := row[rec[k].name := rec[k].value];
      }
      assert rec[..|rec|] == rec;
      rows := rows + [row];
    }
  }

  /** The listed channels the table has, in list order. */
  function PresentChannels(names: seq<string>, cols: ColumnMap): (r: seq<string>)
    ensures forall name :: name in r <==> name in names && name in cols
  {
    if names == [] then []
    else (if names[0] in cols then [names[0]] else []) + PresentChannels(names[1..], cols)
  }

  /** One channel replaced by its gap-filled form. */
  function FillOne(cols: ColumnMap, name: string): ColumnMap
    requires name in cols
  {
    cols[name := FillGaps(cols[name])]
  }

  /** The columns after the channels in `done` have been filled, in any order and any number of times each. */
  ghost function PartlyFilled(orig: ColumnMap, done: set<string>): ColumnMap
  {
    map name | name in orig :: if name in done then FillGaps(orig[name]) else orig[name]
  }

  /** Filling one more channel extends the filled set by that channel; filling one twice changes nothing. */
  lemma PartlyFilledStep(orig: ColumnMap, done: set<string>, name: string)
    requires name in orig
    ensures PartlyFilled(orig, done + {name}) == FillOne(PartlyFilled(orig, done), name)
  {
    if name in done {
      FillIdempotent(orig[name]);
    }
  }

  lemma PartlyFilledAll(orig: ColumnMap, done: set<string>)
    requires forall name :: name in done <==> name in GapChannels && name in orig
    ensures PartlyFilled(orig, done) == FillChannels(orig)
  {
  }

  /** A table whose columns are changed in place by the loading and enrichment steps. */
  class Table {
    var columns: ColumnMap
    var rows: nat
    var index: Index

    ghost predicate Valid()
      reads this
    {
      WellFormed(Frame(columns, rows, index))
    }

    function Snapshot(): Frame
      reads this
    {
      Frame(columns, rows, index)
    }

    predicate Empty()
      reads this
    {
      IsEmpty(Snapshot())
    }

    /** The table of a list of dictionaries. */
    constructor FromRows(data: seq<Row>)
      ensures Snapshot() == FrameOf(data)
    {
      var f := FrameOf(data);
      columns := f.columns;
      rows := f.rows;
      index := f.index;
    }

    /** Adds the degree columns and then drops the semicircle columns. */
    method ConvertPositions()
      requires Valid()
      modifies this
      ensures columns == WithDegrees(old(columns)) && rows == old(rows) && index == old(index)
      ensures Valid()
    {
      if PositionLat in columns && PositionLong in columns {
        columns := columns[Latitude := Scale(columns[PositionLat], SemicircleFactor)];
        columns := columns[Longitude := Scale(columns[PositionLong], SemicircleFactor)];
        columns := columns - {PositionLat, PositionLong};
      }
    }

    /** Moves the timestamp column into the index. */
    method UseTimestampIndex()
      requires Valid()
      modifies this
      ensures Snapshot() == WithTimeIndex(old(Snapshot()))
      ensures Valid()
    {
      if Timestamp in columns {
        index := TimeIndex(columns[Timestamp]);
        columns := columns - {Timestamp};
      }
    }

    /** Fills the gaps of each listed channel the table has, one channel after another. */
    method FillChannelGaps()
      requires Valid()
      modifies this
      ensures columns == FillChannels(old(columns)) && rows == old(rows) && index == old(index)
      ensures Valid()
    {
      var todo := PresentChannels(GapChannels, columns);
      ghost var orig := columns;
      ghost var done := FillEach(todo);
      PartlyFilledAll(orig, done);
      FillChannelsRectangular(orig, rows);
    }

    /** Fills the gaps of the named columns, in the order given. */
    method FillEach(todo: seq<string>) returns (ghost done: set<string>)
      requires forall j :: 0 <= j < |todo| ==> todo[j] in columns
      modifies this
      ensures columns == PartlyFilled(old(columns), done) && rows == old(rows) && index == old(index)
      ensures forall name :: name in done <==> name in todo
    {
      done := {};
      for k := 0 to |todo|
        invariant rows == old(rows) && index == old(index)
        invariant columns == PartlyFilled(old(columns), done)
        invariant forall name :: name in done <==> exists j :: 0 <= j < k && todo[j] == name
      {
        var name := todo[k];
        PartlyFilledStep(old(columns), done, name);
        columns := FillOne(columns, name);
        done := done + {name};
      }
    }

    /** Adds speed in km/h when there is a speed column. */
    method AddSpeedKmh()
      requires Valid()
      modifies this
      ensures columns == WithSpeedKmh(old(columns)) && rows == old(rows) && index == old(index)
      ensures Valid()
    {
      if EnhancedSpeed in columns {
        columns := columns[SpeedKmh := Scale(columns[EnhancedSpeed], 3.6)];
      }
    }

    /** Adds the altitude change when there is an altitude column. */
    method AddDeltaAlt()
      requires Valid()
      modifies this
      ensures columns == WithDeltaAlt(old(columns)) && rows == old(rows) && index == old(index)
      ensures Valid()
    {
      if EnhancedAltitude in columns {
        columns := columns[DeltaAlt := Diff(columns[EnhancedAltitude])];
      }
    }

    /**
     * Adds the distance step and the raw and smoothed grade when there is a
     * distance column. Without an altitude change it fails, after the distance
     * step has been stored.
     */
    method AddSlope() returns (err: Option<PipelineError>)
      requires Valid()
      modifies this
      ensures rows == old(rows) && index == old(index)
      ensures err.None? <==> WithSlope(old(columns), old(rows)).Success?
      ensures err.None? ==> columns == WithSlope(old(columns), old(rows)).value && Valid()
      ensures err.Some? ==>
        err.value == WithSlope(old(columns), old(rows)).error &&
        columns == old(columns)[DeltaDist := DistanceSteps(old(columns)[Distance])]
    {
      err := None;
      if Distance in columns {
        columns := columns[DeltaDist := Diff(columns[Distance])];
        columns := columns[DeltaDist := ZeroToMissing(columns[DeltaDist])];
        if DeltaAlt !in columns {
          return Some(MissingColumn(DeltaAlt));
        }
        columns := columns[SlopeRaw := Percent(columns[DeltaAlt], columns[DeltaDist])];
        columns := columns[SlopeSmooth := CentredMean(columns[SlopeRaw], SlopeHalfWindow)];
        columns := columns[SlopeSmooth := FillMissing(Clip(columns[SlopeSmooth], -50.0, 30.0), 0.0)];
      }
    }

    /** Adds the energy cost of the smoothed grade, then the grade-adjusted speed. */
    method EnrichEnergy()
      requires Valid()
      modifies this
      ensures columns == WithEnergy(old(columns), old(rows)) && rows == old(rows) && index == old(index)
      ensures Valid()
    {
      ghost var orig := columns;
      if SlopeSmooth in columns {
        columns := columns[EnergyCostName := CostColumn(columns[SlopeSmooth])];
      }
      if EnhancedSpeed in columns && EnergyCostName in columns {
        columns := columns[GapSpeed := Product(columns[EnhancedSpeed], columns[EnergyCostName])];
      }
      EnrichKeeps(orig, rows);
    }

    /** Doubles a per-leg cadence channel into steps per minute. */
    method EnsureCadenceSpm()
      requires Valid()
      modifies this
      ensures columns == CadenceSpm(old(columns)) && rows == old(rows) && index == old(index)
      ensures Valid()
    {
      if Cadence in columns {
        var m := MedianOf(columns[Cadence]);
        if m.Some? && m.value < 100.0 {
          columns := columns[Cadence := Scale(columns[Cadence], 2.0)];
        }
      }
    }
  }

  /**
   * Loads an activity: collects its rows, builds the table, and, unless it is
   * empty, decodes coordinates, indexes by timestamp, fills gaps and adds the
   * derived columns.
   */
  method LoadFit(src: FitSource) returns (r: Result<Table, PipelineError>)
    ensures r.Failure? <==> LoadFitSpec(src).Failure?
    ensures r.Failure? ==> r.error == LoadFitSpec(src).error
    ensures r.Success? ==> fresh(r.value) && r.value.Snapshot() == LoadFitSpec(src).value && r.value.Valid()
  {
    if src.Unreadable? {
      return Failure(ParseError);
    }
    var records := src.records;
    var data := CollectRows(records);
    assert data == RowsOf(records);
    var t := new Table.FromRows(data);
    if |records| > 0 {
      TableFromRecords(records, "", 0);
    }
    if t.Empty() {
      return Success(t);
    }
    t.ConvertPositions();
    t.UseTimestampIndex();
    t.FillChannelGaps();
    t.AddSpeedKmh();
    t.AddDeltaAlt();
    var err := t.AddSlope();
    if err.Some? {
      return Failure(err.value);
    }
    return Success(t);
  }

  /** Loads, refuses an empty table, then enriches it in place. */
  method PreprocessAll(src: FitSource) returns (r: Result<Table, PipelineError>)
    ensures r.Failure? <==> PreprocessSpec(src).Failure?
    ensures r.Failure? ==> r.error == PreprocessSpec(src).error
    ensures r.Success? ==> fresh(r.value) && r.value.Snapshot() == PreprocessSpec(src).value
  {
    var loaded := LoadFit(src);
    if loaded.Failure? {
      return Failure(loaded.error);
    }
    var t := loaded.value;
    if t.Empty() {
      return Failure(EmptyResult);
    }
    t.EnrichEnergy();
    t.EnsureCadenceSpm();
    return Success(t);
  }
}
