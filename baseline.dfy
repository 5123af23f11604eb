/**
 * scripts/naive_linear.py: what main does with the model-ready table before
 * any model is fitted. It drops the rows with a null field, lists the
 * feature columns, splits the rows at a point in time and predicts each test
 * row's calls by its calls_lag_1h.
 */
module Baseline {
  import opened Common
  import Calendar
  import opened Features
  import opened FeatureTable
  import Windows

  /** The KeyError pandas raises for a missing column, and the ValueError
      sklearn's metrics raise on an empty sample or on a NaN in one. */
  datatype BaselineError = KeyError(column: string) | ValueError

  /** The default split_date "2021-06-01". pandas compares it with the
      tz-aware ts_hour column in that column's own zone, so it is midnight in
      New York, which is 04:00 UTC in June. */
  const DefaultSplit: Instant := 1622520000

  /** DefaultSplit is midnight at the start of 1 June 2021 on the New York
      wall clock, where daylight saving time puts the offset at -4 hours. */
  lemma DefaultSplitIsJuneFirst(tz: Instant -> int)
    requires tz(1622520000) == -4
    ensures Calendar.DayNumber(Calendar.LocalSeconds(tz, DefaultSplit)) == 18779
    ensures Calendar.CivilFromDays(18779) == Calendar.Date(2021, 6, 1)
    ensures Calendar.HourOfDay(Calendar.LocalSeconds(tz, DefaultSplit)) == 0
  {
    assert Calendar.LocalSeconds(tz, 1622520000) == 1622505600;
    assert (18779 + 719468) / 146097 == 5 && (18779 + 719468) % 146097 == 7762;
    assert Calendar.YearOfEra(7762) == (21, 92);
    assert Calendar.MonthOfYear(92) == (3, 1);
  }

  // ---------------------------------------------------------------------------
  // df.dropna() (line 85)

  /** The rows with no null field, in their order. */
  function DropNaRows(rows: seq<seq<Value>>): (kept: seq<seq<Value>>)
    ensures |kept| <= |rows|
    ensures forall row :: row in kept <==> row in rows && Null !in row
    ensures forall n :: Width(rows, n) ==> Width(kept, n)
  {
    if rows == [] then []
    else
      var kept := (if Null in rows[0] then [] else [rows[0]]) + DropNaRows(rows[1..]);
      assert forall row :: row in kept ==> row in rows;
      WidthOfSubset(rows, kept);
      kept
  }

  /** Rows taken from a table keep its width. */
  lemma WidthOfSubset(rows: seq<seq<Value>>, kept: seq<seq<Value>>)
    requires forall row :: row in kept ==> row in rows
    ensures forall n :: Width(rows, n) ==> Width(kept, n)
  {
    forall n | Width(rows, n) ensures Width(kept, n) {
      forall j | 0 <= j < |kept| ensures |kept[j]| == n {
        assert kept[j] in rows;
      }
    }
  }

  /** df.dropna(): the same columns, and the rows with no null field. */
  function DropNa(t: Table): (r: Table)
    ensures r.columns == t.columns
    ensures WellFormed(t) ==> WellFormed(r)
    ensures forall row :: row in r.rows <==> row in t.rows && Null !in row
  {
    Table(t.columns, DropNaRows(t.rows))
  }

  /** dropna keeps the order of the rows: it can be applied part by part. */
  lemma {:induction false} DropNaRowsAppend(a: seq<seq<Value>>, b: seq<seq<Value>>)
    ensures DropNaRows(a + b) == DropNaRows(a) + DropNaRows(b)
  {
    if a != [] {
      var h: seq<seq<Value>> := if Null in a[0] then [] else [a[0]];
      assert (a + b)[0] == a[0] && (a + b)[1..] == a[1..] + b;
      assert DropNaRows(a + b) == h + DropNaRows(a[1..] + b);
      DropNaRowsAppend(a[1..], b);
      assert DropNaRows(a) == h + DropNaRows(a[1..]);
    } else {
      assert a + b == b;
    }
  }

  /** A table with no null field loses no row. */
  lemma {:induction false} DropNaRowsNoNull(rows: seq<seq<Value>>)
    requires forall j :: 0 <= j < |rows| ==> Null !in rows[j]
    ensures DropNaRows(rows) == rows
  {
    if rows != [] {
      DropNaRowsNoNull(rows[1..]);
    }
  }

  /** Dropping the null rows twice drops nothing more. */
  lemma DropNaIdempotent(t: Table)
    ensures DropNa(DropNa(t)) == DropNa(t)
  {
    var kept := DropNaRows(t.rows);
    forall j | 0 <= j < |kept| ensures Null !in kept[j] {
      assert kept[j] in kept;
    }
    DropNaRowsNoNull(kept);
  }

  // ---------------------------------------------------------------------------
  // feature_cols (line 88)

  /** The identifiers and the target, which are not features. */
  const NotFeatures: seq<string> := ["ts_hour", "calls", "h3_cell"]

  /** The columns that are not ts_hour, calls or h3_cell, in their order. */
  function FeatureCols(columns: seq<string>): (fs: seq<string>)
    ensures |fs| <= |columns|
    ensures forall x :: x in fs <==> x in columns && x !in NotFeatures
  {
    if columns == [] then []
    else (if columns[0] in NotFeatures then [] else [columns[0]]) + FeatureCols(columns[1..])
  }

  /** The comprehension keeps the column order: it can be applied part by part. */
  lemma {:induction false} FeatureColsAppend(a: seq<string>, b: seq<string>)
    ensures FeatureCols(a + b) == FeatureCols(a) + FeatureCols(b)
  {
    if a != [] {
      assert (a + b)[1..] == a[1..] + b;
      FeatureColsAppend(a[1..], b);
    } else {
      assert a + b == b;
    }
  }

  lemma {:induction false} FeatureColsKeepsAll(columns: seq<string>)
    requires forall x :: x in columns ==> x !in NotFeatures
    ensures FeatureCols(columns) == columns
  {
    if columns != [] {
      assert columns[0] in columns;
      FeatureColsKeepsAll(columns[1..]);
    }
  }

  /** On the corrected model-ready table, the features
      are the centroid, the calendar fields, the lags and the rolling
      statistics, in that order. */
  lemma FeatureColsOfModelReady(tz: Instant -> int, rows: seq<EnrichedRow>, lags: seq<nat>, windows: seq<nat>)
    requires NoRepeats(lags) && NoRepeats(windows)
    ensures FeatureCols(ModelReady(tz, rows, lags, windows).columns) ==
      ["center_lat", "center_lng"] + TimeColumnNames + LagNames(lags) + RollNames(windows)
  {
    ModelReadyColumns(tz, rows, lags, windows);
    AddedNamesApart(lags, windows);
    var t, l, w := TimeColumnNames, LagNames(lags), RollNames(windows);
    FeaturesAfterBase(t + l + w);
    ConcatAssoc(BaseColumns, t, l, w);
    ConcatAssoc(["center_lat", "center_lng"], t, l, w);
  }

  /** Of the enriched panel's columns followed by new ones, the features are
      the centroid and the new columns. */
  lemma FeaturesAfterBase(added: seq<string>)
    requires forall x :: x in added ==> x !in BaseColumns
    ensures FeatureCols(BaseColumns + added) == ["center_lat", "center_lng"] + added
  {
    FeatureColsKeepsAll(added);
    FeatureColsAppend(BaseColumns, added);
    BaseFeatures();
  }

  lemma BaseFeatures()
    ensures FeatureCols(BaseColumns) == ["center_lat", "center_lng"]
  {
    var b := BaseColumns;
    var lat, lng: seq<string> := ["center_lat", "center_lng"], ["center_lng"];
    assert b[4..] == lng && lng[1..] == [] && FeatureCols(lng) == lng;
    assert b[3..] == lat && lat[1..] == lng && FeatureCols(lat) == lat;
    assert b[2..][1..] == b[3..] && b[2] in NotFeatures;
    assert b[1..][1..] == b[2..] && b[1] in NotFeatures;
    assert b[1..] == b[1..] && b[0] in NotFeatures;
  }

  // ---------------------------------------------------------------------------
  // train_test_split_time (lines 22-26)

  /** Whether row's ts_hour (field i) is an instant on the given side of the
      split: before it for the training half, at or after it for the test
      half. A null ts_hour compares false both ways and is on neither side. */
  predicate OnSide(row: seq<Value>, i: nat, split: Instant, train: bool)
  {
    i < |row| && row[i].Int? && (row[i].i < split <==> train)
  }

  /** df[mask] for the mask OnSide: the rows on that side, in their order. */
  function Side(rows: seq<seq<Value>>, i: nat, split: Instant, train: bool): (s: seq<seq<Value>>)
    ensures |s| <= |rows|
    ensures forall row :: row in s <==> row in rows && OnSide(row, i, split, train)
    ensures forall n :: Width(rows, n) ==> Width(s, n)
  {
    if rows == [] then []
    else
      var s := (if OnSide(rows[0], i, split, train) then [rows[0]] else []) + Side(rows[1..], i, split, train);
      assert forall row :: row in s ==> row in rows;
      WidthOfSubset(rows, s);
      s
  }

  /** train_test_split_time(df, split): the rows before the split and the rows
      from the split on, both with all of df's columns; KeyError when df has
      no ts_hour column. */
  function TrainTestSplitTime(t: Table, split: Instant): (r: Result<(Table, Table), BaselineError>)
    ensures r.Failure? <==> "ts_hour" !in t.columns
    ensures r.Failure? ==> r.error == KeyError("ts_hour")
    ensures r.Success? ==> r.value.0.columns == t.columns && r.value.1.columns == t.columns
    ensures r.Success? ==> WellFormed(t) ==> WellFormed(r.value.0) && WellFormed(r.value.1)
    ensures r.Success? ==> var i := IndexOf(t.columns, "ts_hour").value;
      (forall row :: row in r.value.0.rows <==> row in t.rows && OnSide(row, i, split, true)) &&
      (forall row :: row in r.value.1.rows <==> row in t.rows && OnSide(row, i, split, false))
  {
    match IndexOf(t.columns, "ts_hour")
    case None => Failure(KeyError("ts_hour"))
    case Some(i) => Success((Table(t.columns, Side(t.rows, i, split, true)), Table(t.columns, Side(t.rows, i, split, false))))
  }

  /** Both halves keep the order of the rows: the split can be made part by part. */
  lemma {:induction false} SideAppend(a: seq<seq<Value>>, b: seq<seq<Value>>, i: nat, split: Instant, train: bool)
    ensures Side(a + b, i, split, train) == Side(a, i, split, train) + Side(b, i, split, train)
  {
    if a != [] {
      assert (a + b)[1..] == a[1..] + b;
      SideAppend(a[1..], b, i, split, train);
    } else {
      assert a + b == b;
    }
  }

  /** When every ts_hour is an instant, the two halves are the input: every
      row is in exactly one of them, as often as it is in the input. */
  lemma {:induction false} SidesPartition(rows: seq<seq<Value>>, i: nat, split: Instant)
    requires forall j :: 0 <= j < |rows| ==> i < |rows[j]| && rows[j][i].Int?
    ensures multiset(Side(rows, i, split, true)) + multiset(Side(rows, i, split, false)) == multiset(rows)
  {
    if rows != [] {
      SidesPartition(rows[1..], i, split);
      assert rows == [rows[0]] + rows[1..];
    }
  }

  /** The two halves have no row in common. */
  lemma SidesDisjoint(rows: seq<seq<Value>>, i: nat, split: Instant, row: seq<Value>)
    requires row in Side(rows, i, split, true)
    ensures row !in Side(rows, i, split, false)
  {
  }

  // ---------------------------------------------------------------------------
  // run_naive_baseline (lines 38-47)

  /** Whether the column called name holds a null. */
  predicate HasNull(t: Table, name: string)
    requires WellFormed(t)
  {
    exists j :: 0 <= j < |t.rows| && ValueAt(t, name, j) == Some(Null)
  }

  /** run_naive_baseline(test): KeyError for a missing calls_lag_1h (line 40),
      then for a missing calls (line 43); then evaluate (line 46) raises
      ValueError on an empty test half or a null among the actual or the
      predicted calls; otherwise the prediction is test["calls_lag_1h"]. */
  function NaiveBaseline(test: Table): (r: Result<seq<Value>, BaselineError>)
    requires WellFormed(test)
    ensures r.Failure? <==> ("calls_lag_1h" !in test.columns || "calls" !in test.columns ||
      |test.rows| == 0 || HasNull(test, "calls_lag_1h") || HasNull(test, "calls"))
    ensures "calls_lag_1h" !in test.columns ==> r == Failure(KeyError("calls_lag_1h"))
    ensures "calls_lag_1h" in test.columns && "calls" !in test.columns ==> r == Failure(KeyError("calls"))
    ensures "calls_lag_1h" in test.columns && "calls" in test.columns && r.Failure? ==> r.error == ValueError
    ensures r.Success? ==> |r.value| == |test.rows|
    ensures r.Success? ==> forall j :: 0 <= j < |test.rows| ==>
      ValueAt(test, "calls_lag_1h", j) == Some(r.value[j]) && r.value[j] != Null
  {
    match IndexOf(test.columns, "calls_lag_1h")
    case None => Failure(KeyError("calls_lag_1h"))
    case Some(k) =>
      match IndexOf(test.columns, "calls")
      case None => Failure(KeyError("calls"))
      case Some(c) =>
        var pred := seq(|test.rows|, j requires 0 <= j < |test.rows| => test.rows[j][k]);
        var truth := seq(|test.rows|, j requires 0 <= j < |test.rows| => test.rows[j][c]);
        forall j | 0 <= j < |test.rows| ensures pred[j] == Null <==> ValueAt(test, "calls_lag_1h", j) == Some(Null) {
        }
        assert Null in pred <==> HasNull(test, "calls_lag_1h");
        forall j | 0 <= j < |test.rows| ensures truth[j] == Null <==> ValueAt(test, "calls", j) == Some(Null) {
        }
        assert Null in truth <==> HasNull(test, "calls");
        if |test.rows| == 0 || Null in truth || Null in pred then Failure(ValueError)
        else Success(pred)
  }

  /** A field of a row without nulls is not null. */
  lemma ValueAtNotNull(t: Table, name: string, r: nat)
    requires WellFormed(t) && r < |t.rows| && Null !in t.rows[r]
    ensures ValueAt(t, name, r) != Some(Null)
  {
    if name in t.columns {
      assert t.rows[r][IndexOf(t.columns, name).value] in t.rows[r];
    }
  }

  /** On a non-empty table without nulls that has both columns the naive
      baseline succeeds. */
  lemma NaiveSucceeds(test: Table)
    requires WellFormed(test) && forall r :: 0 <= r < |test.rows| ==> Null !in test.rows[r]
    requires "calls_lag_1h" in test.columns && "calls" in test.columns && |test.rows| > 0
    ensures NaiveBaseline(test).Success?
  {
    forall j | 0 <= j < |test.rows|
      ensures ValueAt(test, "calls_lag_1h", j) != Some(Null) && ValueAt(test, "calls", j) != Some(Null)
    {
      ValueAtNotNull(test, "calls_lag_1h", j);
      ValueAtNotNull(test, "calls", j);
    }
  }

  /** Every row dropna keeps from the corrected model-ready table with the
      default lags and windows has a non-null calls_lag_24h, so on those rows
      its per-cell rolling columns equal the ones lines 38-51 of
      panel_feature_engineering.py compute as written: the difference never
      reaches the baseline. */
  lemma KeptRowsAgreeAsWritten(tz: Instant -> int, rows: seq<EnrichedRow>, m: nat, r: nat)
    requires SortedByKey(rows) && m < |DefaultWindows| && r < |rows|
    requires Null !in ModelReady(tz, rows, DefaultLags, DefaultWindows).rows[r]
    ensures ValueAt(ModelReady(tz, rows, DefaultLags, DefaultWindows), RollMeanName(DefaultWindows[m]), r) ==
      Some(Windows.RollingAsWritten(CellsOf(rows), CallsOf(rows), DefaultWindows[m], Windows.MeanStat, r))
    ensures ValueAt(ModelReady(tz, rows, DefaultLags, DefaultWindows), RollStdName(DefaultWindows[m]), r) ==
      Some(Windows.RollingAsWritten(CellsOf(rows), CallsOf(rows), DefaultWindows[m], Windows.StdStat, r))
  {
    DefaultArguments();
    ValueAtNotNull(ModelReady(tz, rows, DefaultLags, DefaultWindows), LagName(DefaultLags[5]), r);
    ModelReadyRollingAsWritten(tz, rows, DefaultLags, DefaultWindows, 5, m, r);
  }

  // ---------------------------------------------------------------------------
  // test["pred_naive"] = ... (line 96)

  /** t[name] = values on a plain table: the column is replaced where it
      already is and appended otherwise. */
  function WithColumn(t: Table, name: string, values: seq<Value>): (r: Table)
    requires WellFormed(t) && |values| == |t.rows|
    ensures WellFormed(r) && |r.rows| == |t.rows|
    ensures r.columns == if name in t.columns then t.columns else t.columns + [name]
  {
    match IndexOf(t.columns, name)
    case None => Table(t.columns + [name], seq(|t.rows|, j requires 0 <= j < |t.rows| => t.rows[j] + [values[j]]))
    case Some(i) => Table(t.columns, seq(|t.rows|, j requires 0 <= j < |t.rows| => t.rows[j][i := values[j]]))
  }

  /** After the assignment the name reads the new values, and every other
      column reads what it read before. */
  lemma WithColumnValueAt(t: Table, name: string, values: seq<Value>, n: string, j: nat)
    requires WellFormed(t) && |values| == |t.rows| && j < |t.rows|
    ensures ValueAt(WithColumn(t, name, values), n, j) == if n == name then Some(values[j]) else ValueAt(t, n, j)
  {
    if name !in t.columns && n != name {
      IndexOfSnoc(t.columns, name, n);
    } else if name !in t.columns {
      IndexOfLast(t.columns, name);
    }
  }

  lemma {:induction false} IndexOfLast(s: seq<string>, x: string)
    requires x !in s
    ensures IndexOf(s + [x], x) == Some(|s|)
  {
    if s != [] {
      assert (s + [x])[1..] == s[1..] + [x];
      IndexOfLast(s[1..], x);
    }
  }

  // ---------------------------------------------------------------------------
  // main (lines 80-110), up to the naive baseline

  /** What main has once the naive baseline has run: the feature list, the
      training half, and the test half with its pred_naive column. */
  datatype Prepared = Prepared(features: seq<string>, train: Table, test: Table)

  /** main on the model-ready table: dropna, feature_cols, the split at
      `split` and test["pred_naive"]. */
  method PrepareBaseline(df: Table, split: Instant) returns (r: Result<Prepared, BaselineError>)
    requires WellFormed(df)
    ensures r.Failure? <==> ("ts_hour" !in df.columns || "calls_lag_1h" !in df.columns || "calls" !in df.columns ||
      Side(DropNaRows(df.rows), IndexOf(df.columns, "ts_hour").value, split, false) == [])
    ensures "ts_hour" !in df.columns ==> r == Failure(KeyError("ts_hour"))
    ensures "ts_hour" in df.columns && "calls_lag_1h" !in df.columns ==> r == Failure(KeyError("calls_lag_1h"))
    ensures "ts_hour" in df.columns && "calls_lag_1h" in df.columns && "calls" !in df.columns ==>
      r == Failure(KeyError("calls"))
    ensures "ts_hour" in df.columns && "calls_lag_1h" in df.columns && "calls" in df.columns && r.Failure? ==>
      r.error == ValueError
    ensures r.Success? ==>
      var i := IndexOf(df.columns, "ts_hour").value;
      r.value.features == FeatureCols(df.columns) &&
      r.value.train == Table(df.columns, Side(DropNaRows(df.rows), i, split, true)) &&
      (forall row :: row in r.value.train.rows <==> row in df.rows && Null !in row && OnSide(row, i, split, true)) &&
      NaiveBaseline(Table(df.columns, Side(DropNaRows(df.rows), i, split, false))).Success? &&
      r.value.test == WithColumn(Table(df.columns, Side(DropNaRows(df.rows), i, split, false)), "pred_naive",
        NaiveBaseline(Table(df.columns, Side(DropNaRows(df.rows), i, split, false))).value)
    ensures r.Success? ==> forall j :: 0 <= j < |r.value.test.rows| ==>
      ValueAt(r.value.test, "pred_naive", j) != Some(Null)
  {
    var d := DropNa(df);
    var features := FeatureCols(d.columns);
    var halves := TrainTestSplitTime(d, split);
    if halves.Failure? {
      return Failure(halves.error);
    }
    var train, test := halves.value.0, halves.value.1;
    forall j | 0 <= j < |test.rows| ensures Null !in test.rows[j] {
      assert test.rows[j] in test.rows;
    }
    if "calls_lag_1h" in test.columns && "calls" in test.columns && |test.rows| > 0 {
      NaiveSucceeds(test);
    }
    var naive := NaiveBaseline(test);
    if naive.Failure? {
      return Failure(naive.error);
    }
    var out := WithColumn(test, "pred_naive", naive.value);
    forall j | 0 <= j < |out.rows| ensures ValueAt(out, "pred_naive", j) != Some(Null) {
      WithColumnValueAt(test, "pred_naive", naive.value, "pred_naive", j);
    }
    return Success(Prepared(features, train, out));
  }
}
