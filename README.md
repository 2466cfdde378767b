# Trail activity preprocessing, modelled in Dafny

This project models the data core of a trail-running analysis tool. The tool
reads the track-point records of a FIT activity file into a pandas table and
enriches that table in five stages: coordinate decoding, gap filling, derived
speed and grade, grade-adjusted speed from a metabolic energy-cost model, and
cadence normalisation. It then computes the numbers behind three of its
charts: speed against grade, the drift in effort efficiency between the first
and the last hour, and the median grade-adjusted pace per grade.

Modules, one per concern of the source:

- `Columns`, `Stats`, `GapFill`, `Rolling` model the pandas column operations
  the pipeline relies on. A missing sample (NaN) is written `Missing`. These
  cover elementwise arithmetic, `diff`, `clip`, `fillna`, NaN-skipping
  mean/median, interpolate/ffill/bfill, and the centred rolling mean (needs
  the full window).
- `Frames` covers turning record messages into dictionaries and dictionaries
  into a table.
- `Energy` holds the grade cost polynomial.
- `Pipeline` holds each loading and enrichment stage as a pure function on the
  table's columns, with the end-to-end `LoadFitSpec` and `PreprocessSpec`.
- `TrailUtils` is the loader as it runs. A loop collects the records. A
  `Table` class holds the columns, row count and index, and its methods change
  them in place in the order of `load_fit`, `enrich_energy` and
  `ensure_cadence_spm`. Each method is proved to leave the table in the state
  the matching `Pipeline` stage describes.
- `Analytics` holds the chart arithmetic of `app.py`.

Errors are values: a `Result` whose `PipelineError` names what went wrong.

- `ParseError`: the file cannot be opened.
- `EmptyResult`: the table is empty where the code refuses one.
- `MissingColumn(name)`: the pandas `KeyError` for a column that is read but
  absent.
- `NotTimeIndexed`: elapsed time is asked of a table without a timestamp index.
- `MissingBin`: a missing grade is cast to an integer.

Behaviour of the code that the model keeps as written:

- A file with no records makes `load_fit` return the empty table. Only
  `preprocess_all` refuses it (`trail_utils.py:31-34`, `109-110`).
- A table with a distance channel but no altitude change fails on the missing
  `delta_alt` column (`trail_utils.py:61-64`).
- `app.py` reads its columns unchecked; a missing column is a `KeyError`
  (`app.py:30`, `55-62`, `103-106`).
- The efficiency drift is computed as soon as one row lies in the first hour
  and one in the last hour (`app.py:67-70`).

## Model

| member | source | states |
|---|---|---|
| TrailUtils.CollectRows | trail_utils.py:22-27 | one dictionary per record, in order, each the record's fields with later fields overwriting earlier ones |
| Frames.RowOf | trail_utils.py:24-26 | the definition of a record's dictionary, filled field by field; Frames.RowOfLookup states its keys and values |
| Frames.RowOfLookup | trail_utils.py:24-26 | a name is a key of a record's dictionary exactly when some field carries it, and its value is the last such field's |
| Frames.RowOfKeys | trail_utils.py:24-26 | a record's dictionary has exactly the names of its fields as keys |
| Frames.RowOfValue | trail_utils.py:24-26 | a key's value is that of the last field with that name |
| Frames.FrameOf | trail_utils.py:29 | the definition of the table built from a list of dictionaries; Frames.TableFromRecords states its rows, columns and samples |
| Frames.FieldNamesMember | trail_utils.py:29 | the table's columns are the union of the rows' keys |
| Frames.TableColumns | trail_utils.py:29 | the table has a column for a name exactly when some record has a field of that name |
| Frames.TableFromRecords | trail_utils.py:22-29 | the table has one row per record, is rectangular, has exactly the field names as columns, and in row i holds record i's last value for the name or a missing sample |
| Frames.NoFieldsEmpty | trail_utils.py:29-31 | records without fields, or no records, give an empty table |
| TrailUtils.Table.FromRows | trail_utils.py:29 | the new table is the table of the given rows |
| Pipeline.WithDegrees | trail_utils.py:37-41 | the definition of the coordinate decoding; Pipeline.DegreesDecoded and Pipeline.DegreesRoundTrip state its effect |
| Pipeline.SemicircleLandmarks | trail_utils.py:38 | 2^30 semicircles are 90 degrees and -2^31 are -180 degrees |
| Pipeline.DegreesDecoded | trail_utils.py:37-41 | with both raw columns present, they are replaced by exactly two degree columns of the same lengths, scaled by 180/2^31, each present exactly where its raw column is, every other column unchanged; otherwise nothing changes |
| Pipeline.DegreesRoundTrip | trail_utils.py:38-40 | scaling the degree columns back by 2^31/180 gives the raw columns |
| TrailUtils.Table.ConvertPositions | trail_utils.py:37-41 | the table's columns become the decoded columns, rows and index unchanged, the table stays rectangular |
| Pipeline.TimeIndexMoves | trail_utils.py:44-46 | with a timestamp column it becomes the index and is no longer a column, every other column unchanged; without one nothing changes |
| Pipeline.WithTimeIndex | trail_utils.py:44-46 | moving the timestamp into the index keeps the row count and rectangularity |
| TrailUtils.Table.UseTimestampIndex | trail_utils.py:44-46 | the table becomes the timestamp-indexed table |
| GapFill.Interpolate | trail_utils.py:52 | the definition of the linear interpolation by row position; GapFill.InterpolateMissing states which samples it leaves missing |
| GapFill.ForwardFill | trail_utils.py:52 | the definition of the forward fill; GapFill.ForwardFillAfterInterpolate states it changes nothing after the interpolation |
| GapFill.BackwardFill | trail_utils.py:52 | the definition of the backward fill; GapFill.BackwardFillLeading states what it gives a leading gap |
| GapFill.FillGaps | trail_utils.py:52 | the definition of one channel's fill; GapFill.FillGapsAt, GapFill.FillCompletes and GapFill.FillIdempotent state its properties |
| GapFill.LastKnown | trail_utils.py:52 | the last known row at or before i, and no known row between it and i; none only when nothing is known up to i |
| GapFill.NextKnown | trail_utils.py:52 | the first known row at or after i, and no known row before it; none only when nothing is known from i on |
| GapFill.InterpolateMissing | trail_utils.py:52 | interpolation leaves a sample missing exactly when nothing is known up to it, and keeps known samples |
| GapFill.ForwardFillAfterInterpolate | trail_utils.py:52 | the forward fill changes nothing after the interpolation |
| GapFill.BackwardFillLeading | trail_utils.py:52 | the backward fill gives a leading gap the first known sample |
| GapFill.FillGapsAt | trail_utils.py:52 | at each row: a known sample stays, an interior gap lies on the line between its known neighbours, a trailing gap takes the last known sample, a leading gap the first, and a channel with nothing known stays missing |
| GapFill.FillKeepsKnown | trail_utils.py:52 | every known sample is kept and the length unchanged |
| GapFill.FillCompletes | trail_utils.py:52 | a channel with one known sample has no missing sample after the fill |
| GapFill.FillInterior | trail_utils.py:52 | a gap between known rows j and k is filled with the straight-line value at its position |
| GapFill.FillLeading | trail_utils.py:52 | a gap before the first known row takes that row's sample |
| GapFill.FillTrailing | trail_utils.py:52 | a gap after the last known row takes that row's sample |
| GapFill.FillAllMissing | trail_utils.py:52 | a wholly missing channel is left wholly missing |
| GapFill.FillComplete | trail_utils.py:52 | a channel with no missing sample is unchanged |
| GapFill.FillIdempotent | trail_utils.py:52 | filling twice is filling once |
| TrailUtils.PresentChannels | trail_utils.py:49-50 | the listed channels to fill are exactly those the table has |
| TrailUtils.PartlyFilledStep | trail_utils.py:51-52 | filling one more channel extends the set of filled channels, and refilling one changes nothing |
| TrailUtils.PartlyFilledAll | trail_utils.py:49-52 | once every present listed channel is filled, the columns are the filled table |
| Pipeline.FillChannels | trail_utils.py:49-52 | the definition of the fill of the listed channels; Pipeline.FillChannelsEffect and Pipeline.FillChannelsIdempotent state its effect |
| Pipeline.FillChannelsEffect | trail_utils.py:49-52 | the fill keeps the column set, leaves unlisted columns unchanged, keeps every known sample of a listed channel, completes one with a known sample and leaves a wholly missing one alone |
| Pipeline.FillChannelsIdempotent | trail_utils.py:49-52 | filling the listed channels twice is filling them once |
| Pipeline.FillChannelsRectangular | trail_utils.py:49-52 | the fill keeps one sample per row in every column |
| TrailUtils.Table.FillEach | trail_utils.py:51-52 | after the loop each named channel has been filled and no other column changed |
| TrailUtils.Table.FillChannelGaps | trail_utils.py:49-52 | the table's columns become the gap-filled columns, rows and index unchanged |
| Pipeline.WithSpeedKmh | trail_utils.py:55-56 | the definition of the km/h speed column; Analytics.ScatterSpeedFallback and Pipeline.DerivedRectangular state its properties |
| TrailUtils.Table.AddSpeedKmh | trail_utils.py:55-56 | with a speed column, a km/h column of 3.6 times the speed is added; otherwise nothing changes |
| Pipeline.DiffFirstMissing | trail_utils.py:59 | the first altitude change is missing |
| Pipeline.WithDeltaAlt | trail_utils.py:58-59 | the definition of the altitude-change column; Pipeline.DiffFirstMissing and Pipeline.SlopeRawAt state its values |
| TrailUtils.Table.AddDeltaAlt | trail_utils.py:58-59 | with an altitude column, the row-to-row altitude change is added; otherwise nothing changes |
| Pipeline.DistanceSteps | trail_utils.py:62-63 | the distance steps have one sample per row and never an exact zero |
| Pipeline.WithSlope | trail_utils.py:61-66 | the definition of the grade stage; Pipeline.SlopeRawAt, Pipeline.SlopeNeedsAltitude and Pipeline.SlopeSmoothAt state its results |
| Pipeline.SlopeRawAt | trail_utils.py:61-64 | the distance change and the raw grade are missing at the first row, both are missing where the distance did not change, and the grade is otherwise the altitude change over the distance change times 100 |
| Pipeline.SlopeNeedsAltitude | trail_utils.py:61-64 | a distance channel without an altitude change fails naming the missing column |
| Pipeline.SlopeSmoothAt | trail_utils.py:65-66 | the smoothed grade has no missing sample and lies in [-50, 30]; it is the clipped mean of the 25 raw grades centred on the row when all of them exist, and 0 otherwise |
| Rolling.CentredMean | trail_utils.py:65 | the definition of the centred rolling mean, one sample per row; Rolling.CentredMeanAt states where it exists and its value |
| Rolling.CentredMeanAt | trail_utils.py:65 | a centred rolling mean exists exactly when its whole window lies inside the column with every sample known, and is then the window sum over its width |
| Rolling.CentredMeanOfConstant | trail_utils.py:65 | a window of equal samples smooths to that value |
| Rolling.CentredMeanBounds | trail_utils.py:65 | smoothing stays within bounds that hold for the samples |
| TrailUtils.Table.AddSlope | trail_utils.py:61-66 | adds the distance steps, raw and smoothed grade as the grade stage describes; without an altitude change it reports the missing column after storing the distance steps |
| Pipeline.DerivedRectangular | trail_utils.py:36-66 | each derived-column stage keeps one sample per row |
| Pipeline.FeaturesRectangular | trail_utils.py:54-66 | the derived columns keep one sample per row |
| Pipeline.Features | trail_utils.py:54-66 | the definition of the derived-column stages in source order; Pipeline.FeaturesRectangular states they keep the shape |
| Pipeline.LoadFitSpec | trail_utils.py:10-68 | the definition of loading an activity; Pipeline.LoadFitShape states its shape and TrailUtils.LoadFit is proved to compute it |
| Pipeline.LoadFitShape | trail_utils.py:10-68 | a loaded table comes from a readable file, has one row per record and is rectangular |
| TrailUtils.LoadFit | trail_utils.py:10-68 | the loader fails exactly when the loading stages do, with the same error, and otherwise returns a new table in the state they describe |
| Energy.EnergyCost | trail_utils.py:71-74 | the definition of the cost multiplier polynomial; Energy.FlatCostIsOne, Energy.UphillCostsMore and Energy.ModerateDescentCostsLess state its behaviour |
| Energy.FlatCostIsOne | trail_utils.py:71-74 | the cost multiplier on flat ground is exactly 1 |
| Energy.ClimbTermsPositive | trail_utils.py:73 | on grades in (0, 0.3] the polynomial exceeds its constant term |
| Energy.DescentTermsNegative | trail_utils.py:73 | on grades in [-0.2, 0) the polynomial is below its constant term |
| Energy.UphillCostsMore | trail_utils.py:71-74 | every climb up to the 30% clip bound costs more than flat ground |
| Energy.ModerateDescentCostsLess | trail_utils.py:71-74 | every descent down to 20% costs less than flat ground |
| Pipeline.CostColumn | trail_utils.py:81-82 | the cost column has one sample per row, present exactly where the grade is |
| Pipeline.WithEnergy | trail_utils.py:77-89 | the definition of the energy enrichment; Pipeline.EnergyColumns and Pipeline.GapSpeedAt state its effect |
| Pipeline.EnergyColumns | trail_utils.py:77-89 | the cost column appears exactly when there is a smoothed grade and the grade-adjusted speed exactly when there is also a speed; no other column changes and nothing fails |
| Pipeline.GapSpeedValue | trail_utils.py:86-87 | the grade-adjusted speed at a row is the speed times the cost of the grade |
| Pipeline.GapSpeedAt | trail_utils.py:86-87 | the grade-adjusted speed equals the speed on flat ground and exceeds a positive speed on a climb up to 30% |
| Pipeline.UphillFaster | trail_utils.py:87 | a positive speed times a climb's cost exceeds the speed |
| TrailUtils.Table.EnrichEnergy | trail_utils.py:77-89 | the table's columns become the enriched columns, rows and index unchanged |
| Columns.MedianOf | trail_utils.py:97 | the definition of the NaN-skipping median; Columns.KnownEmpty and Columns.MedianOfDoubled state its properties |
| Columns.KnownEmpty | trail_utils.py:97 | a median has no known sample to work on exactly when every sample is missing |
| Columns.MedianOfDoubled | trail_utils.py:97-98 | doubling a channel doubles its median, and a channel without a median stays without one |
| Stats.SortSorted | trail_utils.py:97 | the median's sort is ascending and a permutation of the samples |
| Stats.MedianDouble | trail_utils.py:97-98 | the median of doubled samples is twice the median |
| Pipeline.CadenceSpm | trail_utils.py:92-100 | the definition of the cadence normalisation; Pipeline.CadenceRule states its effect |
| Pipeline.CadenceRule | trail_utils.py:92-100 | cadence is doubled sample by sample exactly when its median exists and is below 100, which doubles the median; otherwise the table is unchanged; other columns never change |
| Pipeline.CadenceExamples | trail_utils.py:96-98 | a median of 80 becomes 160, a median of 150 stays 150 |
| TrailUtils.Table.EnsureCadenceSpm | trail_utils.py:92-100 | the table's columns become the normalised-cadence columns, rows and index unchanged |
| Pipeline.PreprocessSpec | trail_utils.py:103-114 | the definition of the full preprocessing; Pipeline.PreprocessFailures and Pipeline.PreprocessShape state its properties and TrailUtils.PreprocessAll is proved to compute it |
| Pipeline.PreprocessFailures | trail_utils.py:103-110 | an unreadable file fails to parse and one whose records carry no field fails as empty |
| Pipeline.PreprocessShape | trail_utils.py:103-114 | a preprocessed table has one row per record, at least one row and one column, and is rectangular |
| TrailUtils.PreprocessAll | trail_utils.py:103-114 | preprocessing fails exactly when the preprocessing stages do, with the same error, and otherwise returns a new table in the state they describe |
| Analytics.ScatterSpeed | app.py:29-30 | the definition of the plotted speed; Analytics.ScatterSpeedFallback states its fallback |
| Analytics.ScatterSpeedFallback | app.py:28-30 | without a km/h column the chart plots 3.6 times the m/s speed, exactly what loading stores as the km/h speed |
| Analytics.ElapsedMinutes | app.py:54-55 | the elapsed minutes have one sample per row |
| Analytics.ElapsedFromFirstRow | app.py:55 | elapsed time is 0 at the first row and 60 times the minutes added to the first timestamp give back each timestamp |
| Analytics.EffortSpeed | app.py:57-61 | the definition of the effort speed; Analytics.EffortSpeedAt and Analytics.GainNonNegative state its values |
| Analytics.GainNonNegative | app.py:57-58 | the positive gain is never negative and exists exactly where two consecutive altitudes are known |
| Analytics.EffortSpeedAt | app.py:57-61 | the effort speed exists exactly where the speed and two consecutive altitudes are known, is 60 times the speed plus 600 times the metres gained, and is never below 60 times the speed |
| Analytics.Where | app.py:63 | the selected positions are in range, masked, strictly increasing and include every masked row |
| Analytics.ActiveEfforts | app.py:62-64 | the definition of the surviving rows and their efficiencies; Analytics.ActiveEffortsAt states which rows survive and their efficiency |
| Analytics.ActiveEffortsAt | app.py:62-64 | the surviving rows are exactly the active rows, in order, each with effort speed over heart rate as its efficiency, which is positive |
| Analytics.LastMinute | app.py:67 | the latest known minute is a row's minute and no known minute exceeds it; none only when no minute is known |
| Analytics.EarlyWindow | app.py:68 | the first-hour window is non-empty exactly when some row lies within the first hour, and holds positive efficiencies; Analytics.EarlyAppend states which rows it takes and how often |
| Analytics.LateWindow | app.py:69 | the last-hour window is non-empty when some row lies in it, and holds positive efficiencies; Analytics.LateAppend states which rows it takes and how often |
| Analytics.EarlyAppend | app.py:68 | the first-hour window of joined rows is the join of the windows, and a single row contributes its efficiency exactly when its minute is at most 60 |
| Analytics.LateAppend | app.py:69 | the last-hour window of joined rows is the join of the windows, and a single row contributes its efficiency exactly when its minute is at least the threshold |
| Analytics.LatePositive | app.py:69 | the last-hour window holds positive efficiencies |
| Analytics.MeanOfPositive | app.py:68-69 | a window of positive efficiencies has a positive mean |
| Analytics.DropBelowHundred | app.py:70 | a drop from one positive mean to another is below 100% |
| Analytics.DriftOf | app.py:67-70 | the definition of the drift of a set of rows; Analytics.DriftDefined states when it exists and its bound |
| Analytics.DriftDefined | app.py:67-70 | with positive efficiencies the drift exists exactly when some row lies in the first hour, and is then below 100% |
| Analytics.ActiveDrift | app.py:57-70 | the drift of the active rows exists exactly when an active row lies in the first hour, and is then below 100% |
| Analytics.EffortDrift | app.py:53-70 | the definition of the drift of a table; Analytics.EffortDriftBounds, Analytics.EffortDriftGiven and Analytics.EffortDriftErrors state its results |
| Analytics.EffortDriftComputed | app.py:56-70 | without a smoothed series the drift is computed from the active rows of the effort speed |
| Analytics.EffortDriftGiven | app.py:56-70 | with a smoothed series the drift comes from the efficiencies the table carries, and is an error when they are absent |
| Analytics.EffortDriftBounds | app.py:53-70 | the drift of a table with speed, altitude and heart rate exists exactly when an active row lies in the first hour, and is then below 100% |
| Analytics.EffortDriftErrors | app.py:54-62 | no elapsed time without a timestamp index, an empty index is an error, then a missing altitude, speed or heart rate in that order |
| Analytics.PaceBounds | app.py:104-105 | a speed above 3 km/h is a pace strictly between 0 and 20 min/km |
| Analytics.PacePoints | app.py:103-106 | the definition of the binned paces of the rows faster than 3 km/h; Analytics.PacePointsAt and Analytics.PacePointsFailure state them |
| Analytics.PacePointsFailure | app.py:104-106 | binning fails exactly when a row faster than 3 km/h has no grade |
| Analytics.PacePointsAt | app.py:103-106 | the points are the rows faster than 3 km/h, in order, each binned by its rounded grade with pace 60 over its km/h speed, strictly between 0 and 20 |
| Stats.RoundHalfEven | app.py:106 | the bin is within half a unit of the grade, and a tie goes to the even neighbour |
| Stats.RoundNearest | app.py:106 | a grade less than half a unit from an integer is binned to that integer |
| Analytics.InBinRange | app.py:107 | the kept points are exactly the points with bins in [-40, 40]; Analytics.InBinRangeCount states how often each is kept |
| Analytics.PacesIn | app.py:108 | a bin with a point has at least one pace; Analytics.PacesInCount states that it holds every pace of the bin as often as its point occurs |
| Analytics.PacesInPoints | app.py:108 | every pace of a bin comes from a point of that bin |
| Analytics.PacesInCount | app.py:108 | each pace occurs among a bin's paces exactly as often as the point with that bin and pace occurs |
| Analytics.InBinRangeCount | app.py:107 | a point with a bin in [-40, 40] is kept exactly as often as it occurs, any other point never |
| Analytics.PacesInRange | app.py:107-108 | for a bin in [-40, 40], dropping the out-of-range points leaves its paces unchanged |
| Stats.SortedUnique | trail_utils.py:97 | two ascending sequences with the same elements, counted with multiplicity, are equal |
| Stats.MedianPermutation | app.py:108 | the median depends only on the multiset of the samples |
| Stats.MedianBetween | app.py:108 | a median lies strictly between strict bounds of all its samples |
| Analytics.BinMedians | app.py:108 | the definition of the median pace per bin; Analytics.BinMediansBounds states its keys and values |
| Analytics.BinMediansBounds | app.py:107-108 | a bin is present exactly when some point in range has it; its value lies strictly between 0 and 20 and is the median of the paces of all the points with that bin, the range filter aside |
| Analytics.BinMedianIsMedian | app.py:107-108 | a bin's value is the median of any list holding exactly that bin's paces, each as often as its point occurs |
| Analytics.PointBinsSound | app.py:106 | every bin comes from the rounded grade of a row faster than 3 km/h |
| Analytics.PointBinsComplete | app.py:106 | every row faster than 3 km/h with a grade contributes its rounded grade as a bin |
| Analytics.PointBins | app.py:104-106 | the bins are exactly the rounded grades of the rows faster than 3 km/h, and every pace is strictly between 0 and 20 |
| Analytics.PaceByGradient | app.py:102-108 | the definition of the pace table; Analytics.PaceTable and Analytics.PaceByGradientErrors state its results |
| Analytics.PaceTable | app.py:102-108 | for a gap-free grade the pace table exists, its bins are exactly the rounded grades in [-40, 40] of rows faster than 3 km/h, and every bin's median pace is strictly between 0 and 20 |
| Analytics.PaceTableDefined | app.py:104-106 | a gap-free grade never fails the integer cast |
| Analytics.PaceByGradientErrors | app.py:103-106 | the pace table needs a grade-adjusted speed, then a grade |

## Left out

- Decoding of the FIT container (`fitparse.FitFile`): out of scope. The file is a
  `FitSource` that is either unreadable or its record messages in order.
- Field values that are not numbers (strings, dates, arrays): out of scope. A
  field holds a number or a missing sample.
- Timestamp parsing (`pd.to_datetime`): timestamps are plain seconds. The model
  does not check that the index is ordered, because the source never sorts it.
- Floating point: samples are exact reals. NaN is `Missing`. A drift whose first
  mean is zero or whose means are NaN is `None`, which also covers the infinite
  result of a zero divisor.
- The order of the columns in a table: it has no effect on any value. Columns
  are a map.
- Logging and the `isinstance` guards (`trail_utils.py:78-79`, `93-94`,
  `106-107`): logging is I/O, and the guards cannot fail once the table is typed.
- The Streamlit app: the user interface, the caching wrapper around
  preprocessing, and all drawing and figure formatting.
- The rolling 900-sample efficiency smoothing (`app.py:65`): it is only
  plotted and never enters the drift.
- The heat-buildup chart (`app.py:85-98`): not part of this model.
- Analytics.ScatterSpeedFallback: covers only the speed column of the scatter
  chart. The grade and cadence columns it also reads are drawn and not modelled.
- Analytics.BinMediansBounds: the profile is a map from bin to median. The
  final transpose into a one-row heatmap is layout only.
