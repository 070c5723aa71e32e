# Fishing-activity dashboard: the data-reshaping core of `dataserver.py`

The backend of the illegal-fishing analytics dashboard pulls delivery reports, transponder
pings and vessel counts from a graph database. It reshapes them into the tables that the
Dash charts plot. This project is a Dafny model of that reshaping logic in
`backend/dataserver.py`, with proofs of what each step guarantees. It has one module per concern:

- `Calendar` holds proleptic Gregorian dates, the day after a date (`timedelta(days=1)`),
  `strptime(.., '%Y-%m-%d')` as CPython's regular expression reads it on ASCII digits,
  and `strftime('%Y-%m-%d')`.
- `DateBounds` holds the date-bound block that opens five fetchers. A start bound becomes the
  zero-padded date of its text before the first blank. An end bound becomes the following
  day, an exclusive upper bound. A missing or empty bound is left alone.
- `PyValues` holds the Python values in a record (`None`, text, numbers, lists), `dict.get`,
  truthiness and `ensure_list`.
- `Quantity` holds the `qty_tons` normalisation: commas become dots, `float()` is applied
  (ASCII white space, an optional sign, digits with at most one point), and a failed
  parse or a negative number gives 0. It has two variants: `process_fish_deliveries` and
  the loop inside `prepare_temporal_dataframe`.
- `FishDeliveries` holds `process_fish_deliveries` as a loop over the records.
- `AsofMatch` holds `preprocess_vessel_cargo_data` up to the clustering call:
  - the undated rows are dropped and both sides are sorted;
  - `merge_asof(direction='nearest')` runs with a tolerance;
  - a bare `dropna()` follows, then the `hour` column is added.
- `TemporalMerge` holds `prepare_temporal_dataframe`:
  - the quantity loop writes into an array;
  - an outer join on `date` follows, with its keys sorted and a cartesian product of
    duplicate keys;
  - each column is forward-filled.
- `Dwell` holds `process_transport_movements`. It is a loop over the pings, with an inner loop
  that walks one calendar day at a time and appends one row per day. Times are integer
  microseconds.
- `Rolling` holds `detect_anomalies`. It uses a trailing window of up to 7 rows, the
  `min_periods=1` mean and the sample variance. The label is `Anomaly` when either column's
  |z| > 2, decided as (x − mean)² > 4·variance. The frame is a class whose `anomaly`
  column is added in place.

Errors are values: `Result<_, PyException>` or `Result<_, DateError>`. A handler that
swallows an exception appears as the value it returns: `[]`, an empty frame, or the
unchanged frame.

Two behaviours of the code are kept as written:
- In `process_fish_deliveries`, the handler at `backend/dataserver.py:455` catches
  `ValueError` and `AttributeError` only. A `None` or list `qty_tons` makes `float()` raise
  `TypeError`, which ends the whole call (`FishDeliveryQty`, `ProcessedRecords`).
- In `preprocess_vessel_cargo_data`, the bare `dropna()` at line 623 drops a matched delivery
  whose quantity is missing. An exit ping whose vessel is missing is not replaced by
  another exit (`KeptIff`, `MissingQuantityDropped`). Several deliveries can share one
  exit (`SharedExit`).

## Model

| member | source | states |
|---|---|---|
| Calendar.NextDay | backend/dataserver.py:377 | `+ timedelta(days=1)` succeeds on every date but 9999-12-31, where it raises OverflowError, and gives a later valid date |
| Calendar.ParseYmd | backend/dataserver.py:374 | `strptime('%Y-%m-%d')` yields only valid dates and raises only ValueError |
| Calendar.FormatDate | backend/dataserver.py:374 | `strftime('%Y-%m-%d')` prints ten characters with dashes at positions 4 and 7 |
| Calendar.NextDayIsSuccessor | backend/dataserver.py:377 | no valid date lies strictly between a date and the day `timedelta(days=1)` leads to |
| Calendar.NextDayNumber | backend/dataserver.py:377 | the next day's ordinal day number is one more, across month ends, year ends and leap days |
| Calendar.ParseFormatRoundTrip | backend/dataserver.py:374 | `strptime` of what `strftime('%Y-%m-%d')` printed gives back the same date |
| Calendar.ParsedCharacters | backend/dataserver.py:374 | text that `strptime('%Y-%m-%d')` accepts holds only digits, dashes and the blank of the ` [1-9]` day form |
| DateBounds.BeforeFirstSpace | backend/dataserver.py:374 | `split(" ")[0]` is the longest blank-free prefix: a prefix, with no blank, followed by a blank or the end |
| DateBounds.NormalizeStart | backend/dataserver.py:373-374 | a missing or empty start bound is kept; a given one raises only ValueError, and only when its date part does not parse, and otherwise becomes a ten-character `YYYY-MM-DD` text |
| DateBounds.NormalizeEnd | backend/dataserver.py:375-378 | a missing or empty end bound is kept; a given one raises OverflowError exactly when its date part is 9999-12-31, and otherwise, on success, becomes a ten-character `YYYY-MM-DD` text |
| DateBounds.StartBoundMeaning | backend/dataserver.py:373-374 | `NormalizeStart`: a start bound fails with ValueError exactly when its date part does not parse; otherwise it is the zero-padded rendering of that date, which parses back to it; `None` and `""` are kept |
| DateBounds.StartBoundIdempotent | backend/dataserver.py:503-504 | normalising a normalised start bound changes nothing |
| DateBounds.EndBoundMeaning | backend/dataserver.py:375-378 | `NormalizeEnd`: an end bound is exactly the zero-padded `strftime('%Y-%m-%d')` text of the day after its date part; it parses back to the date one ordinal day later, with no valid date in between; ValueError when unparseable, OverflowError after 9999-12-31; `None` and `""` are kept |
| DateBounds.Canonical | backend/dataserver.py:536-537 | a canonical date string parses back to its date and is its own date part, even when followed by a blank and a time |
| DateBounds.BoundsOfCanonical | backend/dataserver.py:536-541 | from a canonical date with or without a time part, the start bound is that date and the end bound is the formatted next day (or its error) |
| DateBounds.FormattedExamples | backend/dataserver.py:378 | `strftime('%Y-%m-%d')` zero-pads months and days, for example 2035-01-10 and 2036-01-01 |
| DateBounds.StartBoundDropsTime | backend/dataserver.py:827-828 | "2035-01-10 12:00:00" gives the start bound "2035-01-10" |
| DateBounds.StartBoundPads | backend/dataserver.py:827-828 | "2035-1-5" is accepted and re-emitted as "2035-01-05" |
| DateBounds.EndBoundYearRollover | backend/dataserver.py:829-832 | the end bound 2035-12-31 becomes 2036-01-01 |
| DateBounds.EndBoundLeapYear | backend/dataserver.py:921-926 | in 2024 the end bound February 28 becomes February 29 |
| DateBounds.EndBoundCommonYear | backend/dataserver.py:921-926 | in 2023 the end bound "2023-02-28 23:59" becomes March 1 |
| DateBounds.EndBoundCentury | backend/dataserver.py:505-508 | 2100 is not a leap year, so its February 28 is followed by March 1 |
| DateBounds.StartBoundIsoSeparator | backend/dataserver.py:373-374 | "2035-01-10T12:00" raises ValueError: a `T` is not a blank |
| DateBounds.StartBoundDayOutOfRange | backend/dataserver.py:373-374 | "2035-02-30" raises ValueError |
| DateBounds.EndBoundOverflow | backend/dataserver.py:375-378 | the end bound 9999-12-31 raises OverflowError |
| PyValues.EnsureList | backend/dataserver.py:433-435 | a list is returned unchanged, anything else becomes a one-element list |
| PyValues.EnsureListIdempotent | backend/dataserver.py:433-435 | applying `ensure_list` to its own result changes nothing: no double wrapping |
| PyValues.EnsureListWraps | backend/dataserver.py:433-435 | only a list can give a result whose length is not one, and a wrapped value is the result's single element |
| Quantity.ReplaceCommasChars | backend/dataserver.py:452 | `ReplaceCommas`, `replace(",", ".")`: each comma becomes a dot and every other character is kept in place |
| Quantity.ParseFloat | backend/dataserver.py:454 | `float()` reads a number only from text with a non-blank character, and a negative number only from text whose first non-blank character is a minus |
| Quantity.NonNegative | backend/dataserver.py:460-462 | the stored quantity is never negative, equals a non-negative input and is 0 for a negative one |
| Quantity.QtyFromText | backend/dataserver.py:450-462 | the quantity read from text is never negative |
| Quantity.FishDeliveryQty | backend/dataserver.py:447-457 | the `process_fish_deliveries` quantity is non-negative, and the only escaping error is TypeError |
| Quantity.IsNa | backend/dataserver.py:667 | `pd.isna` in an `if` raises only on a list that is not of length one |
| Quantity.TemporalQty | backend/dataserver.py:664-684 | the loop's quantity is non-negative; the loop raises exactly on a list cell other than `[None]` |
| Quantity.ParseFloatDecimal | backend/dataserver.py:454 | `float("ip.fp")` is the decimal value of the digit strings ip and fp |
| Quantity.ParseFloatWhole | backend/dataserver.py:454 | `float()` of a digit string is the whole number it spells |
| Quantity.ParseFloatNegative | backend/dataserver.py:454 | a leading minus negates what `float()` reads from the rest |
| Quantity.TwoDotsNoFloat | backend/dataserver.py:454 | text with two decimal points, signed or not, raises ValueError |
| Quantity.DecimalComma | backend/dataserver.py:452-454 | "ip,fp" is stored as the decimal ip.fp |
| Quantity.TwoSeparatorsGiveZero | backend/dataserver.py:452-457 | text with two commas or dots, such as a thousands separator plus a point, is stored as 0 |
| Quantity.MinusGivesZero | backend/dataserver.py:460-462 | text whose first non-blank character is a minus is stored as 0 |
| Quantity.PositiveQtyWasRead | backend/dataserver.py:450-462 | a positive stored quantity is exactly what `float()` read, an unparseable text gives 0, and a non-negative parse is stored as read |
| Quantity.DecimalCommaExample | backend/dataserver.py:452-454 | "1,5" is stored as 1.5 |
| Quantity.ThousandsSeparatorExample | backend/dataserver.py:452-457 | "1,000.5" is stored as 0 |
| Quantity.NegativeExample | backend/dataserver.py:460-462 | "-3" is stored as 0 |
| Quantity.ZeroText | backend/dataserver.py:447-454 | the default "0" is stored as 0 |
| Quantity.QtyVariants | backend/dataserver.py:664-679 | a missing key gives 0 in `process_fish_deliveries`, which raises exactly on `None` or a list; on text and numbers it agrees with the temporal loop, which stores 0 for a missing cell |
| FishDeliveries.ReformatArrival | backend/dataserver.py:480-483 | a falsy arrival date is kept unchanged; a reformatted one is text |
| FishDeliveries.NormalizeRecord | backend/dataserver.py:447-484 | a normalised record has a non-negative quantity |
| FishDeliveries.ProcessFishDeliveries | backend/dataserver.py:444-487 | the loop builds exactly the mapped list of normalised records, or stops at the first record that raises |
| FishDeliveries.ProcessedRecords | backend/dataserver.py:444-487 | success exactly when every record normalises; then one output per input, in order, each the normal form of its input; otherwise the error of the first failing record, with all before it normalising |
| FishDeliveries.ArrivalDateMeaning | backend/dataserver.py:480-483 | a non-empty text date is accepted exactly when it parses (ValueError otherwise), and becomes the canonical rendering of the same date, a fixed point of the fix-up |
| FishDeliveries.ArrivalDateNeedsText | backend/dataserver.py:480-483 | a truthy arrival date that is not text raises TypeError |
| FishDeliveries.RecordFailure | backend/dataserver.py:447-483 | a record raises exactly when its quantity or its arrival date does, and a quantity failure is reported first as TypeError |
| FishDeliveries.VesselLists | backend/dataserver.py:465-466 | a missing vessel field becomes `["Unknown"]`, a list is kept, and any other value becomes a one-element list |
| FishDeliveries.EmptyRecord | backend/dataserver.py:468-478 | a record with no keys gives "Unknown" names, no date, quantity 0 and `["Unknown"]` vessel lists |
| AsofMatch.DatedDeliveries | backend/dataserver.py:600-604 | the kept deliveries are exactly those with a parseable date, with their quantity |
| AsofMatch.DatedDeliveriesConcat | backend/dataserver.py:604 | dropping undated deliveries keeps each dated one exactly once, in input order |
| AsofMatch.DatedExits | backend/dataserver.py:601-605 | the kept exits are exactly those with a parseable date, with their vessel |
| AsofMatch.DatedExitsConcat | backend/dataserver.py:605 | dropping undated exits keeps each dated one exactly once, in input order |
| AsofMatch.Insert | backend/dataserver.py:608-609 | inserting into a sorted side keeps it sorted and adds exactly one row |
| AsofMatch.SortByTime | backend/dataserver.py:608-609 | `sort_values` gives a sorted permutation of its input |
| AsofMatch.SortKeepsMembers | backend/dataserver.py:608-609 | sorting neither adds nor drops a row |
| AsofMatch.Backward | backend/dataserver.py:613-620 | the backward candidate is the last exit not after the delivery; none means every exit is later |
| AsofMatch.Forward | backend/dataserver.py:613-620 | the forward candidate is the first exit not before the delivery; none means every exit is earlier |
| AsofMatch.Nearest | backend/dataserver.py:612-620 | a chosen exit lies within the tolerance |
| AsofMatch.Hour | backend/dataserver.py:624 | `hour` is in 0..23 and is the hour of the day of the exit time |
| AsofMatch.MatchOne | backend/dataserver.py:613-624 | a surviving row keeps the delivery's date and quantity and takes the nearest exit's date, vessel and hour |
| AsofMatch.MatchRows | backend/dataserver.py:613-623 | no more rows come out than deliveries go in |
| AsofMatch.NearestIsNearest | backend/dataserver.py:613-620 | on sorted exits the chosen exit is at least as near as every exit |
| AsofMatch.NearestPrefersEarlier | backend/dataserver.py:613-620 | on a tie in distance, the earlier exit is chosen |
| AsofMatch.NearestNoneIff | backend/dataserver.py:612-620 | no exit is chosen exactly when every exit is farther than the tolerance |
| AsofMatch.KeptIff | backend/dataserver.py:613-623 | a delivery survives exactly when it has a quantity and its nearest exit in tolerance exists and has a vessel |
| AsofMatch.MatchRowsMembers | backend/dataserver.py:613-623 | the output rows are exactly the surviving deliveries' rows |
| AsofMatch.MatchRowsConcat | backend/dataserver.py:613-623 | each delivery's row depends on that delivery alone, and rows come out in delivery order |
| AsofMatch.MatchRowsSingle | backend/dataserver.py:613-623 | one delivery yields exactly one row when it survives the join and `dropna()`, and none otherwise; with `MatchRowsConcat`, one row per surviving delivery |
| AsofMatch.MatchRowsSorted | backend/dataserver.py:608-620 | sorted deliveries give rows ordered by delivery date |
| AsofMatch.RowIsNearest | backend/dataserver.py:612-624 | each row comes from a delivery and an exit, within tolerance, with no exit nearer, and the hour of its exit |
| AsofMatch.PreprocessRow | backend/dataserver.py:595-624 | `PreprocessVesselCargo`: each output row pairs an input delivery that has a date and quantity with an input exit that has a date and vessel; they are within `threshold_hours`, no dated exit is nearer, and `hour` is the exit's hour |
| AsofMatch.PreprocessShape | backend/dataserver.py:595-635 | `PreprocessVesselCargo`: at most one row per dated delivery, ordered by delivery date, and `[]` when either input is empty |
| AsofMatch.SharedExit | backend/dataserver.py:613-620 | two deliveries can both be joined to a single exit |
| AsofMatch.MissingQuantityDropped | backend/dataserver.py:623 | a delivery with no quantity is dropped even with an exit at the same second |
| TemporalMerge.DatedQty | backend/dataserver.py:656-658 | the kept deliveries are exactly the input rows that have a date, each with its own quantity cell, and no more rows than went in |
| TemporalMerge.DatedQtyConcat | backend/dataserver.py:656-658 | dropping undated deliveries keeps the order of the rest |
| TemporalMerge.CountedVessels | backend/dataserver.py:690-695 | the kept vessel rows are exactly the input rows that have a date and a count, each with its own count, and no more rows than went in |
| TemporalMerge.CountedVesselsConcat | backend/dataserver.py:690-695 | dropping undated or uncounted vessel rows keeps the order of the rest |
| TemporalMerge.NormalizedQty | backend/dataserver.py:663-687 | the loop keeps every row and its date and stores each row's normalised quantity; it fails exactly when some row's quantity raises |
| TemporalMerge.NormalizeQtyColumn | backend/dataserver.py:663-687 | the in-place loop succeeds exactly when every cell normalises, and then every cell holds its normalised quantity |
| TemporalMerge.InsertKey | backend/dataserver.py:698 | adding a key keeps the key list strictly increasing, and its members are the old ones plus the new key |
| TemporalMerge.KeysOf | backend/dataserver.py:698 | the join keys are the distinct dates, strictly increasing |
| TemporalMerge.CellsAtEmpty | backend/dataserver.py:698 | `CellsAt`: a side's cells for a date are empty exactly when the side lacks the date |
| TemporalMerge.CellsAtMembers | backend/dataserver.py:698 | `CellsAt`: the cells collected for a date are exactly the cells of that side's rows with the date |
| TemporalMerge.CellsAtConcat | backend/dataserver.py:698 | `CellsAt`: the cells of a date are taken in row order |
| TemporalMerge.Product | backend/dataserver.py:698 | a duplicated date gives |left|·|right| rows, all with both cells present |
| TemporalMerge.ProductAt | backend/dataserver.py:698 | row i·|right| + j of a duplicated date pairs the i-th left cell with the j-th right cell, left-major |
| TemporalMerge.ProductCells | backend/dataserver.py:698 | each row of a duplicated date holds a left cell and a right cell of that date |
| TemporalMerge.RowCountPositive | backend/dataserver.py:698 | a date yields rows exactly when one side has it |
| TemporalMerge.RowsForKey | backend/dataserver.py:698 | one date yields `RowCount` rows, all on that date |
| TemporalMerge.JoinKeys | backend/dataserver.py:698 | every joined row's date is one of the keys |
| TemporalMerge.RowsForKeyCells | backend/dataserver.py:698 | a row emitted for a date carries that date; its quantity is missing exactly when the left side lacks the date and is otherwise one of that date's left cells; the same holds for the vessel count and the right side |
| TemporalMerge.JoinKeysRow | backend/dataserver.py:698 | every joined row is one of the rows emitted for its own date, which is a key |
| TemporalMerge.JoinKeysContains | backend/dataserver.py:698 | every row emitted for a key is in the join |
| TemporalMerge.OuterMergeCells | backend/dataserver.py:698 | `OuterMerge`: a row's present quantity is one the deliveries have on the row's date, and the quantity is missing exactly when no delivery has that date; the same for the vessel count and the vessel rows |
| TemporalMerge.OuterMergeKeepsQuantities | backend/dataserver.py:698 | `OuterMerge`: every delivery quantity appears, on its date, in some row of the join |
| TemporalMerge.OuterMergeKeepsVessels | backend/dataserver.py:698 | `OuterMerge`: every vessel count appears, on its date, in some row of the join |
| TemporalMerge.ForwardFill | backend/dataserver.py:704 | `ffill` keeps the column length |
| TemporalMerge.FillColumns | backend/dataserver.py:704 | `ffill` on the frame keeps dates and fills each column on its own |
| TemporalMerge.PrepareTemporalDataframe | backend/dataserver.py:649-721 | the in-place loop, the join and the fill build exactly the frame `TemporalFrame` describes |
| TemporalMerge.FillKeepsAndNeverBackfills | backend/dataserver.py:704 | present cells are kept, and a cell is missing after the fill exactly when it and every cell above it were missing |
| TemporalMerge.FillCarriesLast | backend/dataserver.py:704 | a filled cell holds the value of the nearest present cell at or above it |
| TemporalMerge.FillIdempotent | backend/dataserver.py:704 | filling a filled column changes nothing |
| TemporalMerge.JoinKeysSorted | backend/dataserver.py:698 | joining over increasing keys gives rows ordered by date |
| TemporalMerge.JoinKeysCount | backend/dataserver.py:698 | a key appears on `RowCount` rows, and a non-key on none |
| TemporalMerge.OuterMergeSorted | backend/dataserver.py:698 | `OuterMerge`: the outer join's rows are ordered by date |
| TemporalMerge.OuterMergeCount | backend/dataserver.py:698 | `OuterMerge`: a date appears on `RowCount` rows of the join, and does so exactly when a side has it |
| TemporalMerge.CellsAtCount | backend/dataserver.py:698 | a side has as many cells for a date as that date occurs in it |
| TemporalMerge.NormalizedKeepsDates | backend/dataserver.py:687 | writing quantities back keeps every row's date |
| TemporalMerge.DeliveryDates | backend/dataserver.py:656-658 | the delivery frame's dates are exactly the parseable delivery dates |
| TemporalMerge.VesselDates | backend/dataserver.py:690-695 | the vessel frame's dates are exactly the parseable dates that have a count |
| TemporalMerge.TemporalFrameEmpty | backend/dataserver.py:719-721 | `TemporalFrame`: an empty record list or a raising quantity loop gives the empty frame |
| TemporalMerge.TemporalFrameSorted | backend/dataserver.py:698-709 | `TemporalFrame`: the returned frame is ordered by date |
| TemporalMerge.TemporalFrameDates | backend/dataserver.py:649-698 | `TemporalFrame`: each date appears on `RowCount` rows of its delivery and vessel occurrences, and so appears exactly when a delivery or a vessel count has it |
| TemporalMerge.FilledMergeCount | backend/dataserver.py:698-704 | after the fill, each date keeps the `RowCount` rows of the join |
| TemporalMerge.FillColumnsNoBackfill | backend/dataserver.py:704 | in each column, a cell is missing after the fill exactly when it and all rows above are missing; present cells are kept |
| TemporalMerge.SameDayDeliveriesKept | backend/dataserver.py:698 | two deliveries and one vessel count on one day give two rows for that day, not one summed row |
| TemporalMerge.FillKeepsDates | backend/dataserver.py:704-709 | the fill keeps the date order and every date's row count |
| TemporalMerge.SameDatesSameCount | backend/dataserver.py:704 | frames with the same dates row by row count every date alike |
| Dwell.Day | backend/dataserver.py:890 | `.date()` is the day whose span of microseconds contains the instant |
| Dwell.DayAdvance | backend/dataserver.py:908 | adding a day to an instant moves its calendar day on by one |
| Dwell.DaySpan | backend/dataserver.py:890 | the number of days visited is positive exactly when the end day is not before the start day, and is then end day − start day + 1 |
| Dwell.DayAmount | backend/dataserver.py:891-899 | for an interval that does not run backwards, the amount recorded on any day it visits is between 0 and one whole day |
| Dwell.PingRows | backend/dataserver.py:882-883 | a ping whose start or dwell is NaT/NaN yields no rows |
| Dwell.ProcessTransportMovements | backend/dataserver.py:870-910 | the nested loop emits exactly the rows of every ping, in ping order |
| Dwell.PingRowsShape | backend/dataserver.py:889-907 | a ping yields end day − start day + 1 rows on consecutive days from the start day, each copying location and vessel and typed "transport" |
| Dwell.PingRowsEnds | backend/dataserver.py:889-890 | a ping with a non-negative dwell has rows, the first on its start day and the last on its end day |
| Dwell.ExpandAllCount | backend/dataserver.py:881-883 | `ExpandAll`: a skipped ping adds no rows, and every other ping adds its own rows |
| Dwell.CrossingPrefixSum | backend/dataserver.py:891-899 | for a ping crossing midnight, the first m rows sum to the time from the start to the end of day m−1, less 1 µs |
| Dwell.PingRowsTotal | backend/dataserver.py:889-899 | a ping's amounts sum to its dwell on one day, to the dwell less 1 µs when it crosses midnight, and to 0 when it ends before its start day |
| Dwell.MidnightExample | backend/dataserver.py:891-897 | 22:00 plus 7200 s yields 7199.999999 s and 0 s, summing to 1 µs short of the dwell |
| Dwell.PingRowsExact | backend/dataserver.py:891-897 | the corrected split yields as many rows as the split as written |
| Dwell.ExactPrefixSum | backend/dataserver.py:891-899 | with the start day running to midnight, the first m rows sum to the time from the start to the end of day m−1 |
| Dwell.PingRowsExactTotal | backend/dataserver.py:891-899 | with the start day running to midnight, the amounts sum exactly to the dwell, and differ from the code's only by 1 µs on the start day of a crossing ping |
| Rolling.Window | backend/dataserver.py:964 | the window of row i holds rows i−6..i (fewer at the top), ending with row i |
| Rolling.Present | backend/dataserver.py:964-965 | skipping NaN never adds values |
| Rolling.Labels | backend/dataserver.py:976-979 | one label per row |
| Rolling.LabelsMeaning | backend/dataserver.py:972-979 | `LabelAt`: row i is `Anomaly` exactly when the quantity or the vessel count of row i is more than two sample standard deviations from its window's mean |
| Rolling.ComputeLabels | backend/dataserver.py:976-979 | the row-by-row `apply` builds exactly the label column |
| Rolling.TemporalTable.DetectAnomalies | backend/dataserver.py:957-985 | the data columns are unchanged and the `anomaly` column is set to the labels; a frame without the columns is returned unchanged |
| Rolling.ZScoreSquared | backend/dataserver.py:972-977 | for a positive std, abs(d / std) > 2 exactly when d² > 4·std², so no square root is needed |
| Rolling.FirstRowNormal | backend/dataserver.py:965-977 | the first row is `Normal`, because the std of one value is NaN |
| Rolling.SampleVariance | backend/dataserver.py:965 | the sample variance, the square of `rolling(...).std()`, is never negative |
| Rolling.ConstantStatistics | backend/dataserver.py:964-965 | `Mean` and `SampleVariance`: equal values have that value as their mean and a variance of 0 |
| Rolling.ConstantWindowNotOutlier | backend/dataserver.py:964-977 | a row whose window's present values are all equal is not an outlier (z = 0/0) |
| Rolling.SpikeStatistics | backend/dataserver.py:964-965 | `Mean` and `SampleVariance`: six values c and one c+7 have mean c+1 and sample variance 7 |
| Rolling.SpikeIsOutlier | backend/dataserver.py:964-977 | a jump of 7 after six equal values makes the seventh row an outlier |
| Rolling.MissingRowNormal | backend/dataserver.py:972-977 | a row that is NaN in both columns is `Normal` |
| Rolling.LabelIsLocal | backend/dataserver.py:964-977 | a row's label depends only on its two windows |

## Left out

- The database queries, the driver and the `print` calls are left out: they are I/O around the reshaping. Records enter as parameters.
- `normalize_and_cluster` (KMeans) at the end of `preprocess_vessel_cargo_data` is not part of this model, and neither is the `strftime('%Y-%m-%dT%H:%M:%S')` of its two date columns. The model's rows carry integer seconds.
- `pd.to_datetime` and `pd.to_numeric` with `errors='coerce'` are not parsed. Every date, time and dwell enters already converted, with `None` for NaT/NaN.
- Numbers are exact reals or integers. IEEE doubles, NaN arithmetic, `inf` and rounding are not modelled.
- `Calendar.ParseYmd` reads ASCII digits only. CPython's `\d` in `strptime` also matches other Unicode decimal digits, so a date written in, say, Arabic-Indic digits is accepted there and refused with ValueError here.
- `float()` accepts ASCII white space, a sign, digits and at most one point. The model leaves out exponents, underscores, `inf`/`nan`, Unicode digits and white space.
- A Python bool or other object in `qty_tons` is not a `PyValue`: values are `None`, text, numbers and lists.
- Sorting is stable insertion by time. pandas' default quicksort may order rows with equal timestamps differently.
- `AsofMatch` timestamps are whole seconds. `Dwell` times are whole microseconds, and the fractional microseconds of `pd.to_timedelta(dwell, unit='s')` are not modelled. Dwell amounts stay in microseconds; the `total_seconds()` float is not modelled.
- `Dwell.DwellRow.day` is a day number. Its `strftime("%Y-%m-%d")` text is not modelled, and neither is the pandas `Timestamp` range (years 1677 to 2262).
- `TemporalMerge` dates are integers. A delivery frame without a `qty_tons` column, which skips the loop, is not modelled; every delivery carries the cell.
- `TemporalMerge.TemporalFrame` does not apply the final `sort_values(by='date')`, `set_index` and `reset_index`. The joined frame is already ordered by date (`TemporalFrameSorted`), so the sort keeps every date's rows together in the same date order. pandas' default sort is an unstable quicksort, and on frames of more than 16 rows it may reorder rows that share a date (such rows exist: `SameDayDeliveriesKept`). The model keeps the join's order within a date.
- `Rolling` keeps only the `anomaly` column. It does not model the intermediate `rolling_mean_*`, `rolling_std_*` and `z_score_*` columns, or the `to_numeric` coercion, which is the identity on the numbers the model carries.
- `Rolling.TemporalTable.DetectAnomalies` models the handler's KeyError as a frame without columns. A frame with only one of the two columns is not modelled.

## Findings

| source | as written | input that shows it | evidently intended | confidence | as-written member | corrected member |
|---|---|---|---|---|---|---|
| backend/dataserver.py:895 | the start day's share is `datetime.max.time() − start`, which ends at 23:59:59.999999 and so is 1 µs short of midnight | a ping at 22:00 with dwell 7200 s yields 7199.999999 s + 0 s, 1 µs less than the dwell | the per-day amounts of a ping add up to its dwell | not executed | Dwell.PingRowsTotal | Dwell.PingRowsExactTotal |
