# NYC 911 demand pipeline, modelled in Dafny

This project models the data-preparation core of a pipeline that forecasts
New York City 911 call demand per H3 hexagon and hour. The modelled stages
are:

- **aggregate_to_grid.py** (module `Grid`). It parses `Creation Date`, drops
  unparseable dates, floors each event to its UTC hour and indexes its
  coordinates at H3 resolution 8. It then counts events per
  `(h3_cell, ts_hour)` into a panel, checks that the counts add up to the
  number of events, builds one centroid row per distinct cell, and
  optionally exports a closed polygon per cell as GeoJSON.
- **join_panel_meta.py** (module `Join`). It left-joins the panel with the
  cell metadata on `h3_cell`.
- **panel_feature_engineering.py** (modules `Calendar`, `Windows`,
  `Features`, `FeatureTable`). It adds six calendar fields read off `ts_hour`
  on the New York wall clock. It adds per-cell lags
  `calls_lag_{k}h = groupby("h3_cell")["calls"].shift(k)`. It adds rolling
  means and standard deviations of the shifted calls. `Features.Frame` is the
  data frame, a class whose methods add the columns in place.
  `FeatureTable` proves what the model-ready table holds, column by column
  and row by row. This is the corrected table, whose rolling columns are
  computed per cell (see "## Findings"). As written, main saves the same
  table with the rolling columns of `Windows.RollingAsWritten`. The two agree
  on every row that `dropna()` keeps from the corrected table
  (`Baseline.KeptRowsAgreeAsWritten`).
- **naive_linear.py, up to the naive baseline** (module `Baseline`). It
  covers `dropna()`, the feature column list, the time split of
  `train_test_split_time`, `run_naive_baseline` and the assignment
  `test["pred_naive"]`.

Some modelling choices:

- Timestamps are integer seconds since the epoch.
- The America/New_York offset is a parameter `tz` giving whole hours.
- H3 appears as three given functions (cell of a coordinate, centroid,
  boundary) of the h3 4.x API, and they are total in the model.
- A pandas table is a `Table` of named columns and rows of `Value`s, and
  `Null` stands for NaN/NaT.
- The standard deviation is kept as `Root(variance)`, the non-negative square
  root of an exactly computed sample variance.

## Model

| member | source | states |
|---|---|---|
| Grid.FloorHour | scripts/aggregate_to_grid.py:41 | the floor is an hour boundary at or below the instant and less than an hour below it |
| Grid.FloorHourUnique | scripts/aggregate_to_grid.py:41 | the floor is the only hour boundary in the hour ending at the instant |
| Grid.FloorHourIdempotent | scripts/aggregate_to_grid.py:41 | flooring an hour boundary leaves it as it is |
| Grid.FloorHourMonotone | scripts/aggregate_to_grid.py:41 | flooring keeps the order of instants |
| Grid.Retained | scripts/aggregate_to_grid.py:37-38 | exactly the events whose date parsed are kept, and no more rows than came in |
| Grid.RetainedOne | scripts/aggregate_to_grid.py:37-38 | one event is kept exactly when its date parsed |
| Grid.RetainedAppend | scripts/aggregate_to_grid.py:37-38 | filtering keeps row order and multiplicity: it can be done part by part |
| Grid.RetainedAllDated | scripts/aggregate_to_grid.py:37-38 | when every date parsed, no row is dropped |
| Grid.EventKey | scripts/aggregate_to_grid.py:41-48 | the (h3_cell, ts_hour) of one event: the H3 cell of its coordinates at H3_RES and the UTC hour floor of its date (no ensures; described by Grid.SameCoordinatesSameCell) |
| Grid.EventKeys | scripts/aggregate_to_grid.py:41-48 | one (cell, hour) key per retained event |
| Grid.SameCoordinatesSameCell | scripts/aggregate_to_grid.py:46-48 | events at the same coordinates get the same cell; events in the same UTC hour get the same ts_hour |
| Grid.Tally | scripts/aggregate_to_grid.py:51-55 | counting one event into a sorted panel (no ensures; its contract is Grid.TallyCorrect) |
| Grid.GroupCount | scripts/aggregate_to_grid.py:51-55 | groupby(["h3_cell", "ts_hour"]).size() as a fold of Tally over the keys (no ensures; its contract is Grid.GroupCountCorrect) |
| Grid.TallyCorrect | scripts/aggregate_to_grid.py:51-55 | counting one more event keeps the panel sorted and positive, adds one to that key's count only, and adds one to the total |
| Grid.GroupCountCorrect | scripts/aggregate_to_grid.py:51-55 | the grouped count is sorted by (h3_cell, ts_hour), has no key twice and only positive counts, gives each key its number of occurrences, and its calls add up to the number of events |
| Grid.CallsOfRow | scripts/aggregate_to_grid.py:51-55 | in a sorted panel a row's calls are the count of its key |
| Grid.CallsOfHasRow | scripts/aggregate_to_grid.py:51-55 | a key with a positive count has a row carrying that count |
| Grid.PanelRowsAreCounts | scripts/aggregate_to_grid.py:51-55 | every panel row carries its key's event count, at least 1; a key has a row exactly when some event has it |
| Grid.SortedPanelUnique | scripts/aggregate_to_grid.py:51-55 | two sorted positive panels with the same counts are equal |
| Grid.GroupCountOrderIndependent | scripts/aggregate_to_grid.py:51-55 | the panel does not depend on the order of the events |
| Grid.Distinct | scripts/aggregate_to_grid.py:58 | unique() holds no value twice and exactly the values of its input |
| Grid.FirstIndex | scripts/aggregate_to_grid.py:58 | the position of a value's first appearance: it holds the value and no earlier position does |
| Grid.DistinctInOrder | scripts/aggregate_to_grid.py:58 | unique() lists the values in order of first appearance, which fixes the order of the metadata rows and the GeoJSON features |
| Grid.PanelCells | scripts/aggregate_to_grid.py:58 | the h3_cell column of the panel, row for row |
| Grid.MetaRows | scripts/aggregate_to_grid.py:59-63 | one metadata row per listed cell, in order, with that cell's centroid from H3 |
| Grid.BuildCellMeta | scripts/aggregate_to_grid.py:59-62 | the cell_rows loop builds exactly MetaRows |
| Grid.MetadataOnePerCell | scripts/aggregate_to_grid.py:58-63 | the metadata has unique keys and describes exactly the panel's cells |
| Grid.MetadataIgnoresCounts | scripts/aggregate_to_grid.py:58-63 | the metadata depends on the cell column only |
| Grid.ClosedRing | scripts/aggregate_to_grid.py:87-88 | the ring is the boundary swapped to [lng, lat] and closed by its first position; an empty boundary makes coords[0] fail (None) |
| Grid.ExportGeoJson | scripts/aggregate_to_grid.py:79-101 | a feature list exists exactly when no boundary is empty and the write succeeds; then it has one closed ring per metadata row, in order |
| Grid.AggregateToGrid | scripts/aggregate_to_grid.py:30-101 | a missing Creation Date column, then missing Latitude/Longitude, raise before any work; with no retained event the h3_cell assignment of lines 46-48 fails; these are the only failures, and the count assert never fires; on success the panel is the grouped count of the retained keys, its calls add up to the retained events, the metadata is one row per distinct cell, and a GeoJSON export exists exactly when the write succeeds and no boundary is empty, with one closed ring per metadata row, in order |
| Join.Enrich | scripts/join_panel_meta.py:19 | a panel row with a matching row's centroid, or nulls (no ensures; used by Join.LeftMergeRowwise) |
| Join.MergeRow | scripts/join_panel_meta.py:19 | the rows one panel row gives: one per matching metadata row, or one with nulls (no ensures; its contract is Join.MergeRowOfUnique) |
| Join.LeftMerge | scripts/join_panel_meta.py:19 | merge(how="left"), panel rows in panel order (no ensures; its contracts are Join.LeftMergeKeepsRow and Join.LeftMergeRowwise) |
| Join.Matches | scripts/join_panel_meta.py:19 | the metadata rows with a given cell, exactly |
| Join.Lookup | scripts/join_panel_meta.py:19 | a found row has the cell; nothing is found exactly when no metadata row has the cell |
| Join.MatchesOfUnique | scripts/join_panel_meta.py:19 | with unique metadata keys a cell has at most the one match Lookup finds |
| Join.MergeRowOfUnique | scripts/join_panel_meta.py:19 | with unique metadata keys a panel row gives exactly one output row |
| Join.LeftMergeKeepsRow | scripts/join_panel_meta.py:19 | a left merge loses no panel row: each shows up with its key and calls |
| Join.LeftMergeRowwise | scripts/join_panel_meta.py:19 | with unique metadata keys the merge is row for row, in panel order, with the matching centroid or nulls |
| Join.LeftMergeKeepsCalls | scripts/join_panel_meta.py:19 | with unique metadata keys the merge keeps the total of calls |
| Join.Restrict | scripts/join_panel_meta.py:19 | the metadata rows whose cell is in a set, exactly |
| Join.UnusedMetaIgnored | scripts/join_panel_meta.py:19 | metadata rows for cells absent from the panel do not change the merge |
| Join.JoinWithOwnMeta | scripts/join_panel_meta.py:19 | joining a sorted panel with its own metadata gives its rows, sorted, each with its own centroid |
| Join.PipelineJoin | scripts/join_panel_meta.py:19 | after aggregation the enriched panel is sorted, row for row the panel, and its calls add up to the retained events |
| Calendar.HourOfDay | scripts/panel_feature_engineering.py:22 | the hour is in 0..23 and the wall-clock time lies in that hour of its day |
| Calendar.DayOfWeek | scripts/panel_feature_engineering.py:23 | the weekday is in 0..6 |
| Calendar.IsWeekend | scripts/panel_feature_engineering.py:24 | 1 exactly when the day of week is 5 or 6, 0 otherwise |
| Calendar.YearOfEra | scripts/panel_feature_engineering.py:19-21 | splits a day of a 400-year era into a year of the era and a day of that year that add back up to it |
| Calendar.YearOfEraInYear | scripts/panel_feature_engineering.py:19-21 | the day found lies within the year found: day 365 only in a year of 366 days |
| Calendar.YearSplitUnique | scripts/panel_feature_engineering.py:19-21 | a day of an era has only one year of the era and day of that year |
| Calendar.LeapOfEraYear | scripts/panel_feature_engineering.py:19-21 | the February ending a March-based year has 29 days exactly when that year of the era has 366 days |
| Calendar.MonthOfYear | scripts/panel_feature_engineering.py:19-21 | splits a day of a March-based year into a month and a day of month that add back up to it, the day within the month's length |
| Calendar.MonthSplitUnique | scripts/panel_feature_engineering.py:19-21 | a day of a March-based year has only one month and day of month |
| Calendar.CivilFromDays | scripts/panel_feature_engineering.py:19-21 | the month is in 1..12 and the day in 1..31 |
| Calendar.CivilFromDaysValid | scripts/panel_feature_engineering.py:19-21 | the date exists: its day is within the length of its month, 29 February only in a leap year |
| Calendar.CivilRoundTrip | scripts/panel_feature_engineering.py:19-21 | counting the days of the date back from the epoch returns the day number |
| Calendar.DaysFromCivilRoundTrip | scripts/panel_feature_engineering.py:19-21 | every valid date is the date of its own day number |
| Calendar.CivilInjective | scripts/panel_feature_engineering.py:19-21 | no two days share a date |
| Calendar.DayOfWeekNextDay | scripts/panel_feature_engineering.py:23 | the weekday advances by one, wrapping, every 24 hours |
| Calendar.HourOfDayNextHour | scripts/panel_feature_engineering.py:22 | the hour advances by one, wrapping, every hour |
| Calendar.NewYearsDay2021 | scripts/panel_feature_engineering.py:19-24 | 2021-01-01T05:00Z is midnight of Friday 1 January 2021 in New York, not a weekend |
| Calendar.LeapDay2020 | scripts/panel_feature_engineering.py:19-21 | day 18321 is 29 February 2020 |
| Calendar.LeapDay2000 | scripts/panel_feature_engineering.py:19-21 | day 11016 is 29 February 2000, the last day of an era |
| Calendar.DayBeforeEpoch | scripts/panel_feature_engineering.py:19-23 | day -1 is Wednesday 31 December 1969 |
| Windows.Before | scripts/panel_feature_engineering.py:29-31 | the calls of one cell's rows before a position, in table order, at most that many |
| Windows.Prior | scripts/panel_feature_engineering.py:29-31 | the groupby("h3_cell") history of a row: its own cell's earlier calls (no ensures; its contract is Windows.PriorInRun) |
| Windows.Lag | scripts/panel_feature_engineering.py:31 | groupby-shift(k) at a row (no ensures; its contracts are Windows.LagInRun and Windows.LagNoLeakage) |
| Windows.Rolling | scripts/panel_feature_engineering.py:36-51 | the per-cell rolling mean or std at a row (no ensures; its contracts are Windows.RollingNoLeakage and Windows.FirstRowOfCellIsNull) |
| Windows.TableWindow | scripts/panel_feature_engineering.py:38-41 | the window .rolling(window=w) reads over the whole sorted table (no ensures; see Windows.CrossingWindow) |
| Windows.RollingAsWritten | scripts/panel_feature_engineering.py:38-51 | the rolling mean or std as written (no ensures; its contracts are Windows.RollingAsWrittenNoFutureLeak, Windows.AsWrittenAgreesInsideRun and Windows.RollingCrossesCells) |
| Windows.Mean | scripts/panel_feature_engineering.py:42 | the mean is defined exactly for a non-empty window and times the count gives the sum |
| Windows.Variance | scripts/panel_feature_engineering.py:49 | the sample variance is defined exactly from two values on and is non-negative |
| Windows.Summary | scripts/panel_feature_engineering.py:38-51 | mean null only for an empty window, std null for fewer than two values; otherwise the mean times the count is the sum and the variance is non-negative |
| Windows.Recent | scripts/panel_feature_engineering.py:41 | the last w values, or all when fewer |
| Windows.Shifted | scripts/panel_feature_engineering.py:40 | shift(1) per cell gives one value per row |
| Windows.LagNoLeakage | scripts/panel_feature_engineering.py:31 | a positive lag reads only earlier calls of the row's own cell |
| Windows.RollingNoLeakage | scripts/panel_feature_engineering.py:36-51 | the per-cell rolling features read only earlier calls of the row's own cell |
| Windows.RollingAsWrittenNoFutureLeak | scripts/panel_feature_engineering.py:38-51 | as written, the rolling features still read no row at or after the current one |
| Windows.FirstRowOfCellIsNull | scripts/panel_feature_engineering.py:29-51 | a row whose cell has no earlier row gets null lags and null per-cell rolling features |
| Windows.RunStart | scripts/panel_feature_engineering.py:29 | the first row of a row's run of equal cells in the sorted table |
| Windows.PriorInRun | scripts/panel_feature_engineering.py:29-31 | on sorted cells a row's history is the run of calls before it |
| Windows.LagInRun | scripts/panel_feature_engineering.py:29-31 | on sorted cells lag k is the calls k rows back when that row has the same cell, and null exactly for the first k rows of each run |
| Windows.ShiftedInRun | scripts/panel_feature_engineering.py:38-40 | on sorted cells the shifted series is null at a run's first row and the previous call elsewhere in the run |
| Windows.AsWrittenAgreesInsideRun | scripts/panel_feature_engineering.py:38-51 | the as-written window agrees with the per-cell one while it stays within the row's own run |
| Windows.AsWrittenAgreesPastLag | scripts/panel_feature_engineering.py:29-51 | on a row whose lag k is not null, a window of at most k + 1 rows gives the same value as written and per cell |
| Windows.RollingCrossesCells | scripts/panel_feature_engineering.py:38-51 | as written, a one-row cell gets a rolling mean taken from the previous cell, which moves with that cell's calls; per cell it is null |
| Windows.CrossingWindow | scripts/panel_feature_engineering.py:38-44 | the as-written window of that row holds the previous cell's first count |
| Windows.OneCellExample | scripts/panel_feature_engineering.py:27-51 | for one cell with calls 5, 3, 8, lag 1 is null, 5, 3 and the 2-hour mean is null, 5.0, 4.0 |
| Windows.OneCellWindows | scripts/panel_feature_engineering.py:38-44 | the 2-hour windows of that cell are [], [5], [5, 3] |
| Features.Decimal | scripts/panel_feature_engineering.py:31 | the f-string numeral is non-empty and all digits |
| Features.DecimalInjective | scripts/panel_feature_engineering.py:31 | different numbers have different numerals |
| Features.NamesInjective | scripts/panel_feature_engineering.py:27-51 | each family of column names tells its numbers apart |
| Features.NamesApart | scripts/panel_feature_engineering.py:19-51 | lag, mean and std names never coincide, and none is a panel or calendar column |
| Features.LagOneName | scripts/panel_feature_engineering.py:31 | lag 1 is named calls_lag_1h |
| Features.Names | scripts/panel_feature_engineering.py:19 | the column names, in order |
| Features.Find | scripts/panel_feature_engineering.py:19 | the column of a name is found exactly when the name is there |
| Features.Assign | scripts/panel_feature_engineering.py:19 | df[name] = values replaces the column in place or appends it, and brings in nothing else |
| Features.AssignFind | scripts/panel_feature_engineering.py:19 | after the assignment the name reads the new values, every other name what it read before |
| Features.AssignUnique | scripts/panel_feature_engineering.py:19 | the assignment brings no name in twice |
| Features.AssignAllAppend | scripts/panel_feature_engineering.py:54-69 | assigning two batches is assigning their concatenation |
| Features.FindAssignAll | scripts/panel_feature_engineering.py:19-51 | after assigning differently named columns each name reads its column, every other name what it read before |
| Features.NamesAssignAll | scripts/panel_feature_engineering.py:19-51 | assigning new, different names appends them in order |
| Features.TimeField | scripts/panel_feature_engineering.py:19-24 | calendar field f of a row (no ensures; its contract is FeatureTable.ModelReadyCalendar) |
| Features.LagValues | scripts/panel_feature_engineering.py:31 | calls_lag_{k}h, one value per row |
| Features.LagColumns | scripts/panel_feature_engineering.py:29-31 | one lag column per lag |
| Features.RollingValues | scripts/panel_feature_engineering.py:36-51 | calls_roll{mean,std}_{w}h per cell, one value per row |
| Features.RollingColumns | scripts/panel_feature_engineering.py:36-51 | a mean and a std column per window |
| Features.TimeColumns | scripts/panel_feature_engineering.py:19-24 | the six calendar columns, named year … is_weekend in order, one value per row |
| Features.LagColumn | scripts/panel_feature_engineering.py:31 | the loop over the rows, keeping each cell's history, produces groupby-shift(k) at every row |
| Features.LagSeries | scripts/panel_feature_engineering.py:31 | the lags of the first n rows are groupby-shift(k) row by row |
| Features.HistoriesAreBefore | scripts/panel_feature_engineering.py:31 | the history kept per cell is that cell's calls before the row |
| Features.WindowColumn | scripts/panel_feature_engineering.py:38-41 | the loop produces, for every row, the last w calls of its own cell before it |
| Features.WindowSeries | scripts/panel_feature_engineering.py:38-41 | the windows of the first n rows, as above |
| Features.RollingColumn | scripts/panel_feature_engineering.py:38-51 | the loop produces the per-cell rolling mean or std at every row |
| Features.HistoryIsPrior | scripts/panel_feature_engineering.py:29-31 | the history kept for a row's cell is the row's groupby history |
| Features.ToTable | scripts/panel_feature_engineering.py:67 | the saved table has a field per column in each row, one row per panel row, and the panel's columns before the added ones |
| Features.Frame.AsTable | scripts/panel_feature_engineering.py:67 | the frame as the table it saves (no ensures; see Features.ToTable) |
| Features.Frame.constructor | scripts/panel_feature_engineering.py:11-15 | the frame read from the enriched panel has its rows and no added column |
| Features.Frame.SetColumn | scripts/panel_feature_engineering.py:19 | df[name] = values on the frame: the rows stay, the columns are Assign of the old ones |
| Features.Frame.AddTimeFeatures | scripts/panel_feature_engineering.py:17-25 | adds the six calendar columns in order, rows unchanged |
| Features.Frame.AddLagFeatures | scripts/panel_feature_engineering.py:27-32 | adds one groupby-shift column per lag, in order, rows unchanged |
| Features.Frame.AddRollingFeatures | scripts/panel_feature_engineering.py:34-52 | adds a per-cell mean then std column per window, in order, rows unchanged |
| Features.FeatureColumns | scripts/panel_feature_engineering.py:54-69 | main adds 6 + lags + 2·windows columns, each with one value per row |
| Features.ModelReady | scripts/panel_feature_engineering.py:54-69 | the corrected model-ready table is well formed, has the panel's rows, and its columns are the panel's followed by the added ones |
| Features.EngineerFeatures | scripts/panel_feature_engineering.py:54-69 | running the three steps on the frame, with the corrected per-cell rolling step, gives exactly ModelReady |
| FeatureTable.ValueAt | scripts/naive_linear.py:44 | df[name][r] exists exactly when the table has the column |
| FeatureTable.LagNames | scripts/panel_feature_engineering.py:29-31 | one name per lag, in order |
| FeatureTable.RollNames | scripts/panel_feature_engineering.py:36-51 | two names per window |
| FeatureTable.RollingColumnsAt | scripts/panel_feature_engineering.py:36-51 | window m gives the mean column at 2m and the std column at 2m+1 |
| FeatureTable.LagNamesUnique | scripts/panel_feature_engineering.py:29-31 | distinct lags give distinct names |
| FeatureTable.RollNamesUnique | scripts/panel_feature_engineering.py:36-51 | distinct windows give distinct names |
| FeatureTable.FeatureNames | scripts/panel_feature_engineering.py:54-69 | the added names are the calendar fields, then the lags, then mean and std per window |
| FeatureTable.FeatureNamesUnique | scripts/panel_feature_engineering.py:54-69 | with no lag or window twice, no added name repeats or clashes with a panel column |
| FeatureTable.AddedNamesApart | scripts/panel_feature_engineering.py:19-51 | the calendar, lag and rolling names are all different and none is a panel column |
| FeatureTable.ModelReadyColumns | scripts/panel_feature_engineering.py:54-69 | the model-ready columns are the panel's, the calendar fields, the lags, mean and std per window, each name once |
| FeatureTable.ModelReadyKeys | scripts/panel_feature_engineering.py:54-69 | row r of the model-ready table keeps row r's h3_cell, ts_hour and calls |
| FeatureTable.ModelReadyTime | scripts/panel_feature_engineering.py:19-24 | calendar column f at row r is field f of that row's ts_hour |
| FeatureTable.ModelReadyCalendar | scripts/panel_feature_engineering.py:19-24 | year, month, day, hour, day_of_week of the New York wall clock, and is_weekend 1 exactly on days 5 and 6 |
| FeatureTable.ModelReadyLag | scripts/panel_feature_engineering.py:31 | calls_lag_{k}h at row r is groupby-shift(k) at r |
| FeatureTable.ModelReadyLagInRun | scripts/panel_feature_engineering.py:28-31 | on the sorted panel calls_lag_{k}h at r is the calls of row r−k when it is the same cell, and null otherwise |
| FeatureTable.ModelReadyRolling | scripts/panel_feature_engineering.py:36-51 | calls_rollmean_{w}h and calls_rollstd_{w}h at r are the per-cell rolling mean and std at r |
| FeatureTable.ModelReadyRollingAsWritten | scripts/panel_feature_engineering.py:29-51 | where calls_lag_{k}h is not null and the window is at most k + 1, the rolling columns hold the as-written values |
| FeatureTable.DefaultArguments | scripts/panel_feature_engineering.py:27-34 | main's default lags and windows repeat nothing, every window is at least 1 and at most one more than the lag 24 |
| FeatureTable.SortedCells | scripts/panel_feature_engineering.py:28 | sorting by (h3_cell, ts_hour) puts each cell's rows in one run |
| Baseline.DefaultSplitIsJuneFirst | scripts/naive_linear.py:22 | the default split instant is midnight of 1 June 2021 on the New York clock |
| Baseline.DropNaRows | scripts/naive_linear.py:85 | the kept rows are exactly those without a null, never more, of the same width |
| Baseline.DropNa | scripts/naive_linear.py:85 | dropna keeps the columns and exactly the rows without a null, and a well-formed table stays well formed |
| Baseline.DropNaRowsAppend | scripts/naive_linear.py:85 | dropna keeps row order: it can be done part by part |
| Baseline.DropNaRowsNoNull | scripts/naive_linear.py:85 | a table without nulls loses no row |
| Baseline.DropNaIdempotent | scripts/naive_linear.py:85 | dropping twice drops nothing more |
| Baseline.FeatureCols | scripts/naive_linear.py:88 | the features are exactly the columns other than ts_hour, calls and h3_cell |
| Baseline.FeatureColsAppend | scripts/naive_linear.py:88 | the comprehension keeps column order |
| Baseline.FeatureColsKeepsAll | scripts/naive_linear.py:88 | columns that are none of the three all stay |
| Baseline.FeatureColsOfModelReady | scripts/naive_linear.py:88 | on the model-ready table the features are center_lat, center_lng, the calendar fields, the lags and the rolling columns, in that order |
| Baseline.FeaturesAfterBase | scripts/naive_linear.py:88 | of the panel's columns followed by new ones, the features are the centroid then the new ones |
| Baseline.OnSide | scripts/naive_linear.py:24-25 | the mask ts_hour < split_date or >= split_date; a null ts_hour is on neither side (no ensures; see Baseline.SidesPartition) |
| Baseline.Side | scripts/naive_linear.py:24-25 | the rows on one side of the split, exactly, in order, of the same width |
| Baseline.TrainTestSplitTime | scripts/naive_linear.py:22-26 | KeyError exactly when ts_hour is missing; otherwise both halves keep all columns, train is exactly the rows before the split and test exactly those from it on |
| Baseline.SideAppend | scripts/naive_linear.py:24-25 | both halves keep row order |
| Baseline.SidesPartition | scripts/naive_linear.py:24-25 | when every ts_hour is an instant the halves together are the input, as a multiset |
| Baseline.SidesDisjoint | scripts/naive_linear.py:24-25 | no row is in both halves |
| Baseline.NaiveBaseline | scripts/naive_linear.py:38-47 | fails exactly when calls_lag_1h or calls is missing, the test half is empty, or either column holds a null: KeyError for calls_lag_1h first, then for calls, otherwise the ValueError of evaluate; on success the prediction at each row is that row's calls_lag_1h, never null |
| Baseline.ValueAtNotNull | scripts/naive_linear.py:44 | a well-formed table without a null has no null in any present column |
| Baseline.NaiveSucceeds | scripts/naive_linear.py:38-47 | on a non-empty table without nulls that has both columns the naive baseline succeeds |
| Baseline.KeptRowsAgreeAsWritten | scripts/naive_linear.py:85 | on a row dropna keeps from the model-ready table with the default lags and windows, the per-cell rolling columns equal the as-written ones |
| Baseline.WithColumn | scripts/naive_linear.py:96 | assigning a column keeps the table well formed and its rows, and replaces or appends the name |
| Baseline.WithColumnValueAt | scripts/naive_linear.py:96 | after the assignment the name reads the new values, every other name what it read before |
| Baseline.PrepareBaseline | scripts/naive_linear.py:80-96 | main up to the naive baseline: KeyError for ts_hour, then calls_lag_1h, then calls, and otherwise a ValueError exactly when the null-free test half is empty; on success the feature list, a training half that is exactly the table of the null-free rows before the split, and the test half that succeeds in the naive baseline with pred_naive never null |

## Left out

- File and console I/O (`read_csv`, `read_parquet`, `to_parquet`, `to_csv`, `print`) are left out. Inputs and outputs are values.
- The tz database is a parameter `tz` that gives the New York offset in whole hours at each instant. The DST rules themselves are not modelled.
- Floating point is not modelled: coordinates and means are exact reals. The standard deviation is `Root(variance)`, because a square root cannot be computed exactly on reals.
- The H3 library is three given functions, taken to be those of the h3 4.x API (`latlng_to_cell`, `cell_to_latlng`, `cell_to_boundary`, lines 12-16 of scripts/aggregate_to_grid.py). The old-API branch of lines 7-11 is not modelled. It is not equivalent: `h3_to_geo_boundary(h, geo_json=True)` returns (lng, lat) pairs with the ring already closed, so lines 87-88 would swap them back to [lat, lng] and close the ring a second time. The `RuntimeError` for an unsupported H3 version is not modelled either.
- The H3 functions are total in the model. h3 4.x `latlng_to_cell` raises on non-finite coordinates (NaN latitude or longitude), and that error path is not modelled.
- `Creation Date` parsing: the event holds the parsed instant or None. Parsing strings is not modelled.
- The GeoJSON write: a flag says whether writing succeeded. JSON serialisation is not modelled.
- Features.Frame.AddLagFeatures and Features.Frame.AddRollingFeatures require the frame already sorted by (h3_cell, ts_hour), which the enriched panel is (`Join.JoinWithOwnMeta`). So the model does not reorder rows. A frame in any other order is not handled. The source needs this too: `.reset_index(level=0, drop=True)` at lines 43 and 50 leaves a fresh 0..n-1 index, and `df[...] =` aligns on labels. So the rolling values land on the right rows only when the sorted frame's index is already 0..n-1 in order, as it is for the enriched panel read from parquet.
- Features.Frame.SetColumn requires a name that is not one of the panel's columns. None of the added names is, as `Features.NamesApart` shows.
- Features.Frame.AddRollingFeatures requires every window to be at least 1. pandas rejects `window=0` with a ValueError, and the model leaves that error path out.
- Lags are values of type `nat`. The negative shifts pandas also accepts are not modelled. Lag columns hold integers, where pandas holds floats with NaN.
- Baseline.PrepareBaseline does not model `run_linear_regression`, `plot_predictions`, `pred_lr` or the CSV of predictions. They are model fitting, plotting and I/O.
- Baseline.NaiveBaseline does not compute the values of MAE, RMSE and R² that `evaluate` prints. It models only the ValueError scikit-learn raises for an empty input or a NaN.
- Features.ModelReady is the corrected table, with per-cell rolling columns, not the table main saves as written (see "## Findings"). `Baseline.KeptRowsAgreeAsWritten` proves that the two agree on every row `dropna()` keeps from the corrected table. The model does not prove the converse, that `dropna()` keeps the same rows of the as-written table. It would follow because the lag columns are the same in both and a row can differ only where calls_lag_24h is null.
- Baseline.TrainTestSplitTime takes the split as an instant. Parsing `"2021-06-01"` is not modelled; `Baseline.DefaultSplitIsJuneFirst` pins down the default instant.
- Baseline.OnSide treats a null ts_hour as on neither side, because NaT compares false both ways. The dropna before the split removes such rows anyway.
- scripts/feature_engineering.py, scripts/clean_data.js, scripts/linear_baseline.py, scripts/xgboost_model.py, scripts/plot_demand_trends.py and the web front end are not part of this model.

## Findings

| source | as written | input that shows it | evidently intended | confidence | as-written member | corrected member |
|---|---|---|---|---|---|---|
| scripts/panel_feature_engineering.py:38-51 | `.shift(1)` leaves the groupby, so `.rolling(window=w)` runs over the whole sorted table. Near the start of a cell's run its window takes calls from the previous cell. | cells [7, 7, 9], calls [5, 3, 8], w = 3, row 2: as written the rolling mean is 5.0 (cell 7's first count); per cell it is null | the docstring's rolling mean/std "within each H3 cell": a window of the row's own cell's earlier calls only | not executed | Windows.RollingCrossesCells | Features.Frame.AddRollingFeatures |
