/**
 * scripts/panel_feature_engineering.py: the data frame that add_time_features,
 * add_lag_features and add_rolling_features write new columns into.
 *
 * A Frame holds the enriched panel's rows, which these functions never
 * change, and the columns they add, in the order `df[name] = ...` creates
 * them. Each column of lag or rolling values is built by a
 * pass over the rows that keeps every cell's history so far, and is proved
 * equal to the functions of module Windows.
 */
module Features {
  import opened Common
  import Calendar
  import Windows

  /** A named column of values, one per row. */
  datatype Column = Column(name: string, values: seq<Value>)

  /** The columns of the enriched panel, in the order the join leaves them. */
  const BaseColumns: seq<string> := ["h3_cell", "ts_hour", "calls", "center_lat", "center_lng"]

  const TimeColumnNames: seq<string> := ["year", "month", "day", "hour", "day_of_week", "is_weekend"]

  /** The default arguments of add_lag_features and add_rolling_features. */
  const DefaultLags: seq<nat> := [1, 2, 3, 6, 12, 24]
  const DefaultWindows: seq<nat> := [3, 6, 12, 24]

  // ---------------------------------------------------------------------------
  // Column names

  function Digit(d: nat): (c: char)
    requires d < 10
    ensures '0' <= c <= '9'
  {
    ['0', '1', '2', '3', '4', '5', '6', '7', '8', '9'][d]
  }

  /** The decimal numeral of n, as an f-string writes it. */
  function Decimal(n: nat): (s: string)
    ensures |s| >= 1
    ensures forall i :: 0 <= i < |s| ==> '0' <= s[i] <= '9'
  {
    if n < 10 then [Digit(n)] else Decimal(n / 10) + [Digit(n % 10)]
  }

  /** Different numbers have different numerals. */
  lemma {:induction false} DecimalInjective(a: nat, b: nat)
    requires Decimal(a) == Decimal(b)
    ensures a == b
  {
    DecimalLast(a);
    DecimalLast(b);
    DigitInjective(a % 10, b % 10);
    if a >= 10 && b >= 10 {
      DecimalInjective(a / 10, b / 10);
    }
  }

  /** The last digit of a numeral is the last digit of the number, and the
      digits before it are the numeral of the rest. */
  lemma DecimalLast(n: nat)
    ensures Decimal(n)[|Decimal(n)| - 1] == Digit(n % 10)
    ensures n < 10 <==> |Decimal(n)| == 1
    ensures n >= 10 ==> Decimal(n)[..|Decimal(n)| - 1] == Decimal(n / 10)
  {
    if n >= 10 {
      var s := Decimal(n / 10) + [Digit(n % 10)];
      assert s[..|s| - 1] == Decimal(n / 10);
    }
  }

  lemma DigitInjective(a: nat, b: nat)
    requires a < 10 && b < 10 && Digit(a) == Digit(b)
    ensures a == b
  {
  }

  function LagName(k: nat): string
  {
    "calls_lag_" + Decimal(k) + "h"
  }

  function RollMeanName(w: nat): string
  {
    "calls_rollmean_" + Decimal(w) + "h"
  }

  function RollStdName(w: nat): string
  {
    "calls_rollstd_" + Decimal(w) + "h"
  }

  /** The column the naive baseline reads is the lag-1 column. */
  lemma LagOneName()
    ensures LagName(1) == "calls_lag_1h"
  {
  }

  /** Each family of names tells its numbers apart. */
  lemma {:induction false} NamesInjective(a: nat, b: nat)
    ensures LagName(a) == LagName(b) ==> a == b
    ensures RollMeanName(a) == RollMeanName(b) ==> a == b
    ensures RollStdName(a) == RollStdName(b) ==> a == b
  {
    if LagName(a) == LagName(b) {
      assert Decimal(a) == LagName(a)[10..|LagName(a)| - 1] == LagName(b)[10..|LagName(b)| - 1] == Decimal(b);
      DecimalInjective(a, b);
    }
    if RollMeanName(a) == RollMeanName(b) {
      assert Decimal(a) == RollMeanName(a)[15..|RollMeanName(a)| - 1] == RollMeanName(b)[15..|RollMeanName(b)| - 1] == Decimal(b);
      DecimalInjective(a, b);
    }
    if RollStdName(a) == RollStdName(b) {
      assert Decimal(a) == RollStdName(a)[14..|RollStdName(a)| - 1] == RollStdName(b)[14..|RollStdName(b)| - 1] == Decimal(b);
      DecimalInjective(a, b);
    }
  }

  /** The three families never share a name, and no feature name is a name
      of the enriched panel or a calendar field. */
  lemma NamesApart(a: nat, b: nat)
    ensures LagName(a) != RollMeanName(b) && LagName(a) != RollStdName(b)
    ensures RollMeanName(a) != RollStdName(b)
    ensures LagName(a) !in BaseColumns + TimeColumnNames
    ensures RollMeanName(a) !in BaseColumns + TimeColumnNames
    ensures RollStdName(a) !in BaseColumns + TimeColumnNames
  {
    assert LagName(a)[6] == 'l' && RollMeanName(b)[6] == 'r' && RollStdName(b)[6] == 'r';
    assert RollMeanName(a)[10] == 'm' && RollStdName(b)[10] == 's';
    assert |LagName(a)| > 11 && |RollMeanName(a)| > 11 && |RollStdName(a)| > 11;
  }

  // ---------------------------------------------------------------------------
  // Columns as a data frame holds them

  function Names(cols: seq<Column>): (ns: seq<string>)
    ensures |ns| == |cols|
    ensures forall i :: 0 <= i < |cols| ==> ns[i] == cols[i].name
  {
    seq(|cols|, i requires 0 <= i < |cols| => cols[i].name)
  }

  /** No name twice. */
  predicate Unique(ns: seq<string>)
  {
    forall i, j :: 0 <= i < j < |ns| ==> ns[i] != ns[j]
  }

  /** The values of the column called `name`, if there is one. */
  function Find(cols: seq<Column>, name: string): (r: Option<seq<Value>>)
    ensures r.None? <==> name !in Names(cols)
  {
    match IndexOf(Names(cols), name)
    case None => None
    case Some(i) => Some(cols[i].values)
  }

  /** `df[c.name] = c.values`: the column of that name is replaced where it
      already is, and appended otherwise; no other column changes. */
  function Assign(cols: seq<Column>, c: Column): (r: seq<Column>)
    ensures Names(r) == if c.name in Names(cols) then Names(cols) else Names(cols) + [c.name]
    ensures forall i :: 0 <= i < |r| ==> r[i] == c || r[i] in cols
  {
    match IndexOf(Names(cols), c.name)
    case None =>
      var r := cols + [c];
      assert Names(r) == Names(cols) + [c.name];
      r
    case Some(i) =>
      var r := cols[i := c];
      assert Names(r) == Names(cols);
      r
  }

  /** After the assignment the name reads the new values, and every other
      name reads what it read before. */
  lemma AssignFind(cols: seq<Column>, c: Column, n: string)
    ensures Find(Assign(cols, c), n) == if n == c.name then Some(c.values) else Find(cols, n)
  {
    var r := Assign(cols, c);
    if c.name !in Names(cols) {
      assert Names(r) == Names(cols) + [c.name];
      if n != c.name {
        IndexOfSnoc(Names(cols), c.name, n);
      }
    } else {
      assert Names(r) == Names(cols);
    }
  }

  /** The assignment brings no name in twice. */
  lemma AssignUnique(cols: seq<Column>, c: Column)
    requires Unique(Names(cols))
    ensures Unique(Names(Assign(cols, c)))
  {
  }

  /** Appending a different name does not move the first position of a name. */
  lemma {:induction false} IndexOfSnoc(s: seq<string>, x: string, n: string)
    requires n != x
    ensures IndexOf(s + [x], n) == IndexOf(s, n)
  {
    if s != [] {
      assert (s + [x])[1..] == s[1..] + [x];
      IndexOfSnoc(s[1..], x, n);
    }
  }

  /** The columns assigned one after another, in order. */
  function AssignAll(cols: seq<Column>, news: seq<Column>): seq<Column>
  {
    if news == [] then cols else Assign(AssignAll(cols, news[..|news| - 1]), news[|news| - 1])
  }

  lemma {:induction false} AssignAllSnoc(cols: seq<Column>, news: seq<Column>, c: Column)
    ensures AssignAll(cols, news + [c]) == Assign(AssignAll(cols, news), c)
  {
    assert (news + [c])[..|news|] == news;
  }

  /** Assigning the first j + 1 columns is assigning the first j, then column j. */
  lemma AssignAllNext(cols: seq<Column>, news: seq<Column>, j: nat)
    requires j < |news|
    ensures AssignAll(cols, news[..j + 1]) == Assign(AssignAll(cols, news[..j]), news[j])
  {
    assert news[..j + 1] == news[..j] + [news[j]];
    AssignAllSnoc(cols, news[..j], news[j]);
  }

  lemma {:induction false} AssignAllAppend(cols: seq<Column>, a: seq<Column>, b: seq<Column>)
    ensures AssignAll(cols, a + b) == AssignAll(AssignAll(cols, a), b)
  {
    if b == [] {
      assert a + b == a;
    } else {
      var b0, x := b[..|b| - 1], b[|b| - 1];
      assert b == b0 + [x];
      assert a + b == (a + b0) + [x];
      AssignAllAppend(cols, a, b0);
      AssignAllSnoc(cols, a + b0, x);
      AssignAllSnoc(AssignAll(cols, a), b0, x);
    }
  }

  /** After assigning columns whose names are all different, each of those
      names reads the column assigned to it, and every other name reads what
      it read before. */
  lemma {:induction false} FindAssignAll(cols: seq<Column>, news: seq<Column>, name: string)
    requires Unique(Names(news))
    ensures forall j :: 0 <= j < |news| && news[j].name == name ==>
      Find(AssignAll(cols, news), name) == Some(news[j].values)
    ensures name !in Names(news) ==> Find(AssignAll(cols, news), name) == Find(cols, name)
  {
    if news != [] {
      var init, last := news[..|news| - 1], news[|news| - 1];
      SplitLast(news);
      FindAssignAll(cols, init, name);
      assert news == init + [last];
      AssignAllSnoc(cols, init, last);
      AssignFind(AssignAll(cols, init), last, name);
    }
  }

  lemma {:induction false} UniqueAssignAll(cols: seq<Column>, news: seq<Column>)
    requires Unique(Names(cols))
    ensures Unique(Names(AssignAll(cols, news)))
  {
    if news != [] {
      UniqueAssignAll(cols, news[..|news| - 1]);
      AssignUnique(AssignAll(cols, news[..|news| - 1]), news[|news| - 1]);
    }
  }

  /** Assigning columns whose names are new and all different appends them. */
  lemma {:induction false} NamesAssignAll(cols: seq<Column>, news: seq<Column>)
    requires Unique(Names(news))
    requires forall j :: 0 <= j < |news| ==> news[j].name !in Names(cols)
    ensures Names(AssignAll(cols, news)) == Names(cols) + Names(news)
  {
    if news != [] {
      var init, last := news[..|news| - 1], news[|news| - 1];
      SplitLast(news);
      NamesAssignAll(cols, init);
      assert Names(AssignAll(cols, news)) == Names(cols) + Names(init) + [last.name];
    }
  }

  /** The last of columns with different names has a name none of the others has. */
  lemma SplitLast(news: seq<Column>)
    requires news != [] && Unique(Names(news))
    ensures Names(news) == Names(news[..|news| - 1]) + [news[|news| - 1].name]
    ensures Unique(Names(news[..|news| - 1]))
    ensures news[|news| - 1].name !in Names(news[..|news| - 1])
    ensures forall j :: 0 <= j < |news| - 1 ==> news[..|news| - 1][j] == news[j]
  {
    var ns, init := Names(news), Names(news[..|news| - 1]);
    assert init == ns[..|news| - 1];
    forall j | 0 <= j < |init| ensures init[j] != ns[|news| - 1] {
      assert init[j] == ns[j];
    }
  }

  /** Every column assigned has one value per row if every column given has. */
  lemma {:induction false} LengthsAssignAll(cols: seq<Column>, news: seq<Column>, n: nat)
    requires forall i :: 0 <= i < |cols| ==> |cols[i].values| == n
    requires forall i :: 0 <= i < |news| ==> |news[i].values| == n
    ensures forall i :: 0 <= i < |AssignAll(cols, news)| ==> |AssignAll(cols, news)[i].values| == n
  {
    if news != [] {
      LengthsAssignAll(cols, news[..|news| - 1], n);
    }
  }

  // ---------------------------------------------------------------------------
  // The columns add_time_features, add_lag_features and add_rolling_features add

  function CellsOf(rows: seq<EnrichedRow>): (cells: seq<CellId>)
    ensures |cells| == |rows| && forall i :: 0 <= i < |rows| ==> cells[i] == rows[i].cell
  {
    seq(|rows|, i requires 0 <= i < |rows| => rows[i].cell)
  }

  function CallsOf(rows: seq<EnrichedRow>): (calls: seq<int>)
    ensures |calls| == |rows| && forall i :: 0 <= i < |rows| ==> calls[i] == rows[i].calls
  {
    seq(|rows|, i requires 0 <= i < |rows| => rows[i].calls)
  }

  /** A lag as the column holds it: null where the shift has no value. */
  function OptValue(o: Option<int>): Value
  {
    match o
    case None => Null
    case Some(x) => Int(x)
  }

  /** The New York wall-clock seconds of row i's ts_hour. */
  function Local(tz: Instant -> int, row: EnrichedRow): int
  {
    Calendar.LocalSeconds(tz, row.hour)
  }

  function DateOf(tz: Instant -> int, row: EnrichedRow): Calendar.Date
  {
    Calendar.CivilFromDays(Calendar.DayNumber(Local(tz, row)))
  }

  /** Calendar field f of a row, in the order of lines 19-24: year, month,
      day, hour, day_of_week, is_weekend; is_weekend is read off the day of
      week as line 24 reads it off the day_of_week column. */
  function TimeField(tz: Instant -> int, row: EnrichedRow, f: nat): int
    requires f < 6
  {
    if f == 0 then DateOf(tz, row).year
    else if f == 1 then DateOf(tz, row).month
    else if f == 2 then DateOf(tz, row).day
    else if f == 3 then Calendar.HourOfDay(Local(tz, row))
    else if f == 4 then Calendar.DayOfWeek(Local(tz, row))
    else Calendar.IsWeekend(Calendar.DayOfWeek(Local(tz, row)))
  }

  /** The six calendar columns of lines 19-24, in order. */
  function TimeColumns(tz: Instant -> int, rows: seq<EnrichedRow>): (cols: seq<Column>)
    ensures Names(cols) == TimeColumnNames
    ensures forall j :: 0 <= j < |cols| ==> |cols[j].values| == |rows|
  {
    seq(6, f requires 0 <= f < 6 =>
      Column(TimeColumnNames[f], seq(|rows|, i requires 0 <= i < |rows| => Int(TimeField(tz, rows[i], f)))))
  }

  /** calls_lag_{k}h of line 31, row by row. */
  function LagValues(rows: seq<EnrichedRow>, k: nat): (v: seq<Value>)
    ensures |v| == |rows|
  {
    seq(|rows|, r requires 0 <= r < |rows| => OptValue(Windows.Lag(CellsOf(rows), CallsOf(rows), k, r)))
  }

  function LagColumns(rows: seq<EnrichedRow>, lags: seq<nat>): (cols: seq<Column>)
    ensures |cols| == |lags|
  {
    seq(|lags|, j requires 0 <= j < |lags| => Column(LagName(lags[j]), LagValues(rows, lags[j])))
  }

  /** calls_roll{mean,std}_{w}h of lines 38-51, per cell, row by row. */
  function RollingValues(rows: seq<EnrichedRow>, w: nat, stat: Windows.Stat): (v: seq<Value>)
    ensures |v| == |rows|
  {
    seq(|rows|, r requires 0 <= r < |rows| => Windows.Rolling(CellsOf(rows), CallsOf(rows), w, stat, r))
  }

  /** For each window the mean column, then the standard deviation column. */
  function RollingColumns(rows: seq<EnrichedRow>, windows: seq<nat>): (cols: seq<Column>)
    ensures |cols| == 2 * |windows|
  {
    if windows == [] then []
    else
      var w := windows[|windows| - 1];
      RollingColumns(rows, windows[..|windows| - 1]) +
        [Column(RollMeanName(w), RollingValues(rows, w, Windows.MeanStat)),
         Column(RollStdName(w), RollingValues(rows, w, Windows.StdStat))]
  }

  // ---------------------------------------------------------------------------
  // The columns filled by a pass over the rows

  /** The calls seen so far of cell c. */
  function History(hist: map<CellId, seq<int>>, c: CellId): seq<int>
  {
    if c in hist then hist[c] else []
  }

  /** The histories of all cells after the first n rows, built row by row. */
  function Histories(cells: seq<CellId>, calls: seq<int>, n: nat): map<CellId, seq<int>>
    requires n <= |cells| == |calls|
  {
    if n == 0 then map[]
    else
      var h := Histories(cells, calls, n - 1);
      h[cells[n - 1] := History(h, cells[n - 1]) + [calls[n - 1]]]
  }

  /** The history kept for a cell is that cell's calls before row n in the
      groupby's sense. */
  lemma {:induction false} HistoriesAreBefore(cells: seq<CellId>, calls: seq<int>, n: nat, c: CellId)
    requires n <= |cells| == |calls|
    ensures History(Histories(cells, calls, n), c) == Windows.Before(cells, calls, c, n)
  {
    if n > 0 {
      HistoriesAreBefore(cells, calls, n - 1, c);
    }
  }

  /** groupby("h3_cell")["calls"].shift(k), filled row by row: each row reads
      the calls its own cell has had so far, and then adds its own. */
  method LagColumn(cells: seq<CellId>, calls: seq<int>, k: nat) returns (col: seq<Value>)
    requires |cells| == |calls|
    ensures |col| == |cells|
    ensures forall r :: 0 <= r < |cells| ==> col[r] == OptValue(Windows.Lag(cells, calls, k, r))
  {
    col := [];
    var hist: map<CellId, seq<int>> := map[];
    for i := 0 to |cells|
      invariant hist == Histories(cells, calls, i)
      invariant col == LagSeries(cells, calls, k, i)
    {
      var p := History(hist, cells[i]);
      HistoryIsPrior(cells, calls, i);
      col := col + [OptValue(Windows.Back(p, calls[i], k))];
      hist := hist[cells[i] := p + [calls[i]]];
    }
  }

  /** The lags of the first n rows. */
  function LagSeries(cells: seq<CellId>, calls: seq<int>, k: nat, n: nat): (s: seq<Value>)
    requires n <= |cells| == |calls|
    ensures |s| == n && forall r :: 0 <= r < n ==> s[r] == OptValue(Windows.Lag(cells, calls, k, r))
  {
    if n == 0 then [] else LagSeries(cells, calls, k, n - 1) + [OptValue(Windows.Lag(cells, calls, k, n - 1))]
  }

  /** groupby("h3_cell")["calls"].shift(1) followed by a window of w rows of
      the same cell, filled row by row from each cell's history so far: the
      windows that .rolling(window=w, min_periods=1) hands to .mean() or .std(). */
  method WindowColumn(cells: seq<CellId>, calls: seq<int>, w: nat) returns (wins: seq<seq<int>>)
    requires |cells| == |calls|
    ensures |wins| == |cells|
    ensures forall r :: 0 <= r < |cells| ==> wins[r] == Windows.CellWindow(cells, calls, w, r)
  {
    wins := [];
    var hist: map<CellId, seq<int>> := map[];
    for i := 0 to |cells|
      invariant hist == Histories(cells, calls, i)
      invariant wins == WindowSeries(cells, calls, w, i)
    {
      var p := History(hist, cells[i]);
      HistoryIsPrior(cells, calls, i);
      wins := wins + [Windows.Recent(p, w)];
      hist := hist[cells[i] := p + [calls[i]]];
    }
  }

  /** The windows of the first n rows. */
  function WindowSeries(cells: seq<CellId>, calls: seq<int>, w: nat, n: nat): (s: seq<seq<int>>)
    requires n <= |cells| == |calls|
    ensures |s| == n && forall r :: 0 <= r < n ==> s[r] == Windows.CellWindow(cells, calls, w, r)
  {
    if n == 0 then [] else WindowSeries(cells, calls, w, n - 1) + [Windows.CellWindow(cells, calls, w, n - 1)]
  }

  /** .rolling(window=w, min_periods=1).mean() or .std() of the shifted calls,
      per cell. */
  method RollingColumn(cells: seq<CellId>, calls: seq<int>, w: nat, stat: Windows.Stat) returns (col: seq<Value>)
    requires |cells| == |calls|
    ensures |col| == |cells|
    ensures forall r :: 0 <= r < |cells| ==> col[r] == Windows.Rolling(cells, calls, w, stat, r)
  {
    var wins := WindowColumn(cells, calls, w);
    col := seq(|wins|, r requires 0 <= r < |wins| => Windows.Summary(stat, wins[r]));
  }

  /** The history kept for row i's cell is the groupby history of row i. */
  lemma HistoryIsPrior(cells: seq<CellId>, calls: seq<int>, i: nat)
    requires i < |cells| == |calls|
    ensures History(Histories(cells, calls, i), cells[i]) == Windows.Prior(cells, calls, i)
  {
    HistoriesAreBefore(cells, calls, i, cells[i]);
  }

  /** Calendar column j is named after field j, which the panel does not have. */
  lemma TimeColumnApart(tz: Instant -> int, rows: seq<EnrichedRow>, j: nat)
    requires j < 6
    ensures TimeColumns(tz, rows)[j].name == TimeColumnNames[j] && TimeColumnNames[j] !in BaseColumns
    ensures |TimeColumns(tz, rows)[j].values| == |rows|
  {
  }

  lemma LagColumnIsValues(rows: seq<EnrichedRow>, k: nat, col: seq<Value>)
    requires |col| == |rows|
    requires forall r :: 0 <= r < |rows| ==> col[r] == OptValue(Windows.Lag(CellsOf(rows), CallsOf(rows), k, r))
    ensures col == LagValues(rows, k)
  {
  }

  lemma RollingColumnIsValues(rows: seq<EnrichedRow>, w: nat, stat: Windows.Stat, col: seq<Value>)
    requires |col| == |rows|
    requires forall r :: 0 <= r < |rows| ==> col[r] == Windows.Rolling(CellsOf(rows), CallsOf(rows), w, stat, r)
    ensures col == RollingValues(rows, w, stat)
  {
  }

  /** One more window adds its mean column and then its standard deviation column. */
  lemma RollingColumnsStep(cols: seq<Column>, rows: seq<EnrichedRow>, windows: seq<nat>, j: nat)
    requires j < |windows|
    ensures AssignAll(cols, RollingColumns(rows, windows[..j + 1])) ==
      Assign(Assign(AssignAll(cols, RollingColumns(rows, windows[..j])),
        Column(RollMeanName(windows[j]), RollingValues(rows, windows[j], Windows.MeanStat))),
        Column(RollStdName(windows[j]), RollingValues(rows, windows[j], Windows.StdStat)))
  {
    var w := windows[j];
    var mean := Column(RollMeanName(w), RollingValues(rows, w, Windows.MeanStat));
    var std := Column(RollStdName(w), RollingValues(rows, w, Windows.StdStat));
    var prev := RollingColumns(rows, windows[..j]);
    assert windows[..j + 1][..j] == windows[..j];
    assert RollingColumns(rows, windows[..j + 1]) == (prev + [mean]) + [std];
    AssignAllSnoc(cols, prev + [mean], std);
    AssignAllSnoc(cols, prev, mean);
  }

  // ---------------------------------------------------------------------------
  // The data frame

  /** The values of an enriched row under BaseColumns. */
  function BaseValues(row: EnrichedRow): (v: seq<Value>)
    ensures |v| == |BaseColumns|
  {
    [Int(row.cell), Int(row.hour), Int(row.calls),
     match row.centerLat case None => Null case Some(x) => Num(x),
     match row.centerLng case None => Null case Some(x) => Num(x)]
  }

  /** The frame as a table: the enriched panel's columns, then the added ones. */
  function ToTable(rows: seq<EnrichedRow>, added: seq<Column>): (t: Table)
    requires forall j :: 0 <= j < |added| ==> |added[j].values| == |rows|
    ensures WellFormed(t) && |t.rows| == |rows|
    ensures t.columns == BaseColumns + Names(added)
  {
    Table(BaseColumns + Names(added),
      seq(|rows|, i requires 0 <= i < |rows| =>
        BaseValues(rows[i]) + seq(|added|, j requires 0 <= j < |added| => added[j].values[i])))
  }

  class Frame {
    var rows: seq<EnrichedRow>
    var added: seq<Column>

    /** Every added column has a value per row, and the frame has no name twice. */
    ghost predicate Valid()
      reads this
    {
      (forall j :: 0 <= j < |added| ==> |added[j].values| == |rows|) &&
      Unique(Names(added)) &&
      (forall j :: 0 <= j < |added| ==> added[j].name !in BaseColumns)
    }

    /** pd.read_parquet of the enriched panel. */
    constructor (rows: seq<EnrichedRow>)
      ensures Valid() && this.rows == rows && added == []
    {
      this.rows := rows;
      added := [];
    }

    function Columns(): seq<string>
      reads this
    {
      BaseColumns + Names(added)
    }

    function AsTable(): Table
      reads this
      requires Valid()
    {
      ToTable(rows, added)
    }

    /** df[c.name] = c.values for a column that is not one of the panel's. */
    method SetColumn(c: Column)
      requires Valid() && |c.values| == |rows| && c.name !in BaseColumns
      modifies this
      ensures Valid() && rows == old(rows)
      ensures added == Assign(old(added), c)
    {
      var r := Assign(added, c);
      AssignUnique(added, c);
      forall j | 0 <= j < |r| ensures |r[j].values| == |rows| && r[j].name !in BaseColumns {
        assert r[j] == c || r[j] in added;
      }
      added := r;
    }

    /** add_time_features (lines 17-25). */
    method AddTimeFeatures(tz: Instant -> int)
      requires Valid()
      modifies this
      ensures Valid() && rows == old(rows)
      ensures added == AssignAll(old(added), TimeColumns(tz, rows))
    {
      var cols := TimeColumns(tz, rows);
      for j := 0 to |cols|
        invariant Valid() && rows == old(rows)
        invariant added == AssignAll(old(added), cols[..j])
      {
        TimeColumnApart(tz, rows, j);
        SetColumn(cols[j]);
        AssignAllNext(old(added), cols, j);
      }
      assert cols[..|cols|] == cols;
    }

    /** add_lag_features (lines 27-32) on a frame already sorted by
        (h3_cell, ts_hour), which sort_values leaves as it is. */
    method AddLagFeatures(lags: seq<nat>)
      requires Valid() && SortedByKey(rows)
      modifies this
      ensures Valid() && rows == old(rows)
      ensures added == AssignAll(old(added), LagColumns(rows, lags))
    {
      var cells, calls := CellsOf(rows), CallsOf(rows);
      var cols := LagColumns(rows, lags);
      for j := 0 to |lags|
        invariant Valid() && rows == old(rows)
        invariant added == AssignAll(old(added), cols[..j])
      {
        var values := LagColumn(cells, calls, lags[j]);
        LagColumnIsValues(rows, lags[j], values);
        NamesApart(lags[j], 0);
        SetColumn(Column(LagName(lags[j]), values));
        AssignAllNext(old(added), cols, j);
      }
      assert cols[..|lags|] == cols;
    }

    /** add_rolling_features (lines 34-52) on a frame already sorted by
        (h3_cell, ts_hour), with the window of each row kept to its own cell. */
    method AddRollingFeatures(windows: seq<nat>)
      requires Valid() && SortedByKey(rows)
      requires forall j :: 0 <= j < |windows| ==> windows[j] >= 1
      modifies this
      ensures Valid() && rows == old(rows)
      ensures added == AssignAll(old(added), RollingColumns(rows, windows))
    {
      var cells, calls := CellsOf(rows), CallsOf(rows);
      for j := 0 to |windows|
        invariant Valid() && rows == old(rows)
        invariant added == AssignAll(old(added), RollingColumns(rows, windows[..j]))
      {
        var w := windows[j];
        assert windows[..j + 1][..j] == windows[..j];
        var mean := RollingColumn(cells, calls, w, Windows.MeanStat);
        RollingColumnIsValues(rows, w, Windows.MeanStat, mean);
        NamesApart(w, 0);
        SetColumn(Column(RollMeanName(w), mean));
        var std := RollingColumn(cells, calls, w, Windows.StdStat);
        RollingColumnIsValues(rows, w, Windows.StdStat, std);
        SetColumn(Column(RollStdName(w), std));
        RollingColumnsStep(old(added), rows, windows, j);
      }
      assert windows[..|windows|] == windows;
    }
  }

  // ---------------------------------------------------------------------------
  // main (lines 54-69): the model-ready table

  /** The columns main adds, in the order it adds them. */
  function FeatureColumns(tz: Instant -> int, rows: seq<EnrichedRow>, lags: seq<nat>, windows: seq<nat>): (news: seq<Column>)
    ensures |news| == 6 + |lags| + 2 * |windows|
    ensures forall j :: 0 <= j < |news| ==> |news[j].values| == |rows|
  {
    var t, l, r := TimeColumns(tz, rows), LagColumns(rows, lags), RollingColumns(rows, windows);
    RollingColumnsShape(rows, windows);
    assert forall j :: 0 <= j < |r| ==> (t + l + r)[|t| + |l| + j] == r[j];
    t + l + r
  }

  /** The model-ready dataset as a function of the enriched panel, with the
      rolling columns computed per cell, as lines 34-52 intend. As written,
      main saves the same table except that those columns are
      Windows.RollingAsWritten; FeatureTable.ModelReadyRollingAsWritten and
      Baseline.KeptRowsAgreeAsWritten give the rows where the two agree. */
  function ModelReady(tz: Instant -> int, rows: seq<EnrichedRow>, lags: seq<nat>, windows: seq<nat>): (t: Table)
    ensures WellFormed(t) && |t.rows| == |rows|
    ensures t.columns == BaseColumns + Names(AssignAll([], FeatureColumns(tz, rows, lags, windows)))
  {
    var news := FeatureColumns(tz, rows, lags, windows);
    LengthsAssignAll([], news, |rows|);
    ToTable(rows, AssignAll([], news))
  }

  lemma {:induction false} RollingColumnsShape(rows: seq<EnrichedRow>, windows: seq<nat>)
    ensures forall j :: 0 <= j < |RollingColumns(rows, windows)| ==>
      |RollingColumns(rows, windows)[j].values| == |rows|
  {
    if windows != [] {
      RollingColumnsShape(rows, windows[..|windows| - 1]);
    }
  }

  /** main on the enriched panel: load, the three steps in order, save
      (main passes DefaultLags and DefaultWindows), with the corrected,
      per-cell rolling step. */
  method EngineerFeatures(tz: Instant -> int, rows: seq<EnrichedRow>, lags: seq<nat>, windows: seq<nat>)
    returns (t: Table)
    requires SortedByKey(rows)
    requires forall j :: 0 <= j < |windows| ==> windows[j] >= 1
    ensures t == ModelReady(tz, rows, lags, windows)
  {
    var df := new Frame(rows);
    df.AddTimeFeatures(tz);
    df.AddLagFeatures(lags);
    df.AddRollingFeatures(windows);
    var tc, lc, rc := TimeColumns(tz, rows), LagColumns(rows, lags), RollingColumns(rows, windows);
    AssignAllAppend([], tc, lc);
    AssignAllAppend([], tc + lc, rc);
    assert df.added == AssignAll([], FeatureColumns(tz, rows, lags, windows));
    t := df.AsTable();
  }
}

module FeatureTable {
  import opened Common
  import Calendar
  import Windows
  import opened Features

  /** No number twice. */
  predicate NoRepeats(s: seq<nat>)
  {
    forall i, j :: 0 <= i < j < |s| ==> s[i] != s[j]
  }

  /** df[name] at row r, if the table has a column of that name. */
  function ValueAt(t: Table, name: string, r: nat): (v: Option<Value>)
    requires WellFormed(t) && r < |t.rows|
    ensures v.None? <==> name !in t.columns
  {
    match IndexOf(t.columns, name)
    case None => None
    case Some(i) => Some(t.rows[r][i])
  }

  function LagNames(lags: seq<nat>): (ns: seq<string>)
    ensures |ns| == |lags| && forall j :: 0 <= j < |lags| ==> ns[j] == LagName(lags[j])
  {
    seq(|lags|, j requires 0 <= j < |lags| => LagName(lags[j]))
  }

  function RollNames(windows: seq<nat>): (ns: seq<string>)
    ensures |ns| == 2 * |windows|
  {
    if windows == [] then []
    else
      var w := windows[|windows| - 1];
      RollNames(windows[..|windows| - 1]) + [RollMeanName(w), RollStdName(w)]
  }

  lemma {:induction false} RollingColumnsAt(rows: seq<EnrichedRow>, windows: seq<nat>, m: nat)
    requires m < |windows|
    ensures RollingColumns(rows, windows)[2 * m] ==
      Column(RollMeanName(windows[m]), RollingValues(rows, windows[m], Windows.MeanStat))
    ensures RollingColumns(rows, windows)[2 * m + 1] ==
      Column(RollStdName(windows[m]), RollingValues(rows, windows[m], Windows.StdStat))
  {
    if m < |windows| - 1 {
      var init := windows[..|windows| - 1];
      RollingColumnsAt(rows, init, m);
      assert init[m] == windows[m];
    }
  }

  lemma {:induction false} RollNamesAreNames(rows: seq<EnrichedRow>, windows: seq<nat>)
    ensures Names(RollingColumns(rows, windows)) == RollNames(windows)
  {
    if windows != [] {
      var init := windows[..|windows| - 1];
      RollNamesAreNames(rows, init);
      var w := windows[|windows| - 1];
      var a := [Column(RollMeanName(w), RollingValues(rows, w, Windows.MeanStat)),
                Column(RollStdName(w), RollingValues(rows, w, Windows.StdStat))];
      assert Names(RollingColumns(rows, init) + a) == Names(RollingColumns(rows, init)) + Names(a);
    }
  }

  /** A rolling name is the mean or the deviation name of one of the windows. */
  lemma {:induction false} InRollNames(windows: seq<nat>, x: string)
    requires x in RollNames(windows)
    ensures exists m :: 0 <= m < |windows| && (x == RollMeanName(windows[m]) || x == RollStdName(windows[m]))
  {
    var init := windows[..|windows| - 1];
    var w := windows[|windows| - 1];
    if x in RollNames(init) {
      InRollNames(init, x);
      var m :| 0 <= m < |init| && (x == RollMeanName(init[m]) || x == RollStdName(init[m]));
      assert init[m] == windows[m];
    } else {
      assert x == RollMeanName(windows[|windows| - 1]) || x == RollStdName(windows[|windows| - 1]);
    }
  }

  lemma UniqueConcat(a: seq<string>, b: seq<string>)
    requires Unique(a) && Unique(b)
    requires forall i :: 0 <= i < |a| ==> a[i] !in b
    ensures Unique(a + b)
  {
    forall i, j | 0 <= i < j < |a + b| ensures (a + b)[i] != (a + b)[j] {
      if j >= |a| && i < |a| {
        assert (a + b)[j] == b[j - |a|];
      }
    }
  }

  lemma LagNamesUnique(lags: seq<nat>)
    requires NoRepeats(lags)
    ensures Unique(LagNames(lags))
  {
    forall i, j | 0 <= i < j < |lags| ensures LagName(lags[i]) != LagName(lags[j]) {
      NamesInjective(lags[i], lags[j]);
    }
  }

  lemma {:induction false} RollNamesUnique(windows: seq<nat>)
    requires NoRepeats(windows)
    ensures Unique(RollNames(windows))
  {
    if windows != [] {
      var init := windows[..|windows| - 1];
      var w := windows[|windows| - 1];
      RollNamesUnique(init);
      NamesApart(w, w);
      forall i | 0 <= i < |RollNames(init)| ensures RollNames(init)[i] !in [RollMeanName(w), RollStdName(w)] {
        var x := RollNames(init)[i];
        InRollNames(init, x);
        var m :| 0 <= m < |init| && (x == RollMeanName(init[m]) || x == RollStdName(init[m]));
        assert init[m] == windows[m] != w;
        NamesInjective(init[m], w);
        NamesApart(init[m], w);
        NamesApart(w, init[m]);
      }
      UniqueConcat(RollNames(init), [RollMeanName(w), RollStdName(w)]);
    }
  }

  /** The names of the added columns: the calendar fields, then one per lag,
      then a mean and a deviation per window. */
  lemma FeatureNames(tz: Instant -> int, rows: seq<EnrichedRow>, lags: seq<nat>, windows: seq<nat>)
    ensures Names(FeatureColumns(tz, rows, lags, windows)) == TimeColumnNames + LagNames(lags) + RollNames(windows)
  {
    var tc, lc, rc := TimeColumns(tz, rows), LagColumns(rows, lags), RollingColumns(rows, windows);
    RollNamesAreNames(rows, windows);
    assert Names(lc) == LagNames(lags);
    assert Names(tc + lc + rc) == Names(tc) + Names(lc) + Names(rc);
  }

  /** With no lag and no window twice, main adds no name twice and none
      that the enriched panel already has. */
  lemma FeatureNamesUnique(tz: Instant -> int, rows: seq<EnrichedRow>, lags: seq<nat>, windows: seq<nat>)
    requires NoRepeats(lags) && NoRepeats(windows)
    ensures Unique(Names(FeatureColumns(tz, rows, lags, windows)))
    ensures forall x :: x in Names(FeatureColumns(tz, rows, lags, windows)) ==> x !in BaseColumns
  {
    FeatureNames(tz, rows, lags, windows);
    AddedNamesApart(lags, windows);
  }

  /** The calendar, lag and rolling names: no name twice, and none of the
      enriched panel's. */
  lemma AddedNamesApart(lags: seq<nat>, windows: seq<nat>)
    requires NoRepeats(lags) && NoRepeats(windows)
    ensures Unique(TimeColumnNames + LagNames(lags) + RollNames(windows))
    ensures forall x :: x in TimeColumnNames + LagNames(lags) + RollNames(windows) ==> x !in BaseColumns
  {
    var ln, rn := LagNames(lags), RollNames(windows);
    LagNamesUnique(lags);
    RollNamesUnique(windows);
    forall i | 0 <= i < |ln| ensures ln[i] !in rn && ln[i] !in BaseColumns + TimeColumnNames {
      NamesApart(lags[i], 0);
      if ln[i] in rn {
        InRollNames(windows, ln[i]);
        var m :| 0 <= m < |windows| && (ln[i] == RollMeanName(windows[m]) || ln[i] == RollStdName(windows[m]));
        NamesApart(lags[i], windows[m]);
      }
    }
    forall x | x in rn ensures x !in BaseColumns + TimeColumnNames {
      InRollNames(windows, x);
      var m :| 0 <= m < |windows| && (x == RollMeanName(windows[m]) || x == RollStdName(windows[m]));
      NamesApart(windows[m], 0);
    }
    UniqueConcat(ln, rn);
    UniqueConcat(TimeColumnNames, ln + rn);
    assert TimeColumnNames + ln + rn == TimeColumnNames + (ln + rn);
  }

  /** A name not among the first columns is found among the rest, shifted. */
  lemma {:induction false} IndexOfAfter(a: seq<string>, b: seq<string>, n: string)
    requires n !in a
    ensures IndexOf(a + b, n) == match IndexOf(b, n) case None => None case Some(i) => Some(|a| + i)
  {
    if a != [] {
      assert (a + b)[1..] == a[1..] + b;
      IndexOfAfter(a[1..], b, n);
    } else {
      assert a + b == b;
    }
  }

  /** An added column read back from the table, row by row. */
  lemma ToTableValueAt(rows: seq<EnrichedRow>, cols: seq<Column>, name: string, r: nat)
    requires forall j :: 0 <= j < |cols| ==> |cols[j].values| == |rows|
    requires name !in BaseColumns && r < |rows|
    ensures ValueAt(ToTable(rows, cols), name, r) ==
      match Find(cols, name) case None => None case Some(v) => Some(v[r])
  {
    IndexOfAfter(BaseColumns, Names(cols), name);
  }

  /** The j-th column main adds, read back from the model-ready table. */
  lemma FeatureValue(tz: Instant -> int, rows: seq<EnrichedRow>, lags: seq<nat>, windows: seq<nat>,
                     j: nat, name: string, values: seq<Value>, r: nat)
    requires NoRepeats(lags) && NoRepeats(windows)
    requires j < |FeatureColumns(tz, rows, lags, windows)| && r < |rows| && |values| == |rows|
    requires FeatureColumns(tz, rows, lags, windows)[j] == Column(name, values)
    ensures ValueAt(ModelReady(tz, rows, lags, windows), name, r) == Some(values[r])
  {
    var news := FeatureColumns(tz, rows, lags, windows);
    FeatureNamesUnique(tz, rows, lags, windows);
    LengthsAssignAll([], news, |rows|);
    FindAssignAll([], news, name);
    assert name in Names(news);
    ToTableValueAt(rows, AssignAll([], news), name, r);
  }

  /** The model-ready table has the enriched panel's columns, then the
      calendar fields, then one column per lag, then a mean and a deviation
      column per window, each name once. */
  lemma ModelReadyColumns(tz: Instant -> int, rows: seq<EnrichedRow>, lags: seq<nat>, windows: seq<nat>)
    requires NoRepeats(lags) && NoRepeats(windows)
    ensures ModelReady(tz, rows, lags, windows).columns ==
      BaseColumns + TimeColumnNames + LagNames(lags) + RollNames(windows)
    ensures Unique(ModelReady(tz, rows, lags, windows).columns)
  {
    var ns := TimeColumnNames + LagNames(lags) + RollNames(windows);
    AddedNames(tz, rows, lags, windows);
    UniqueAfterBase(ns);
    ConcatAssoc(BaseColumns, TimeColumnNames, LagNames(lags), RollNames(windows));
  }

  /** The names main adds, once it has added them all. */
  lemma AddedNames(tz: Instant -> int, rows: seq<EnrichedRow>, lags: seq<nat>, windows: seq<nat>)
    requires NoRepeats(lags) && NoRepeats(windows)
    ensures Names(AssignAll([], FeatureColumns(tz, rows, lags, windows))) ==
      TimeColumnNames + LagNames(lags) + RollNames(windows)
    ensures Unique(TimeColumnNames + LagNames(lags) + RollNames(windows))
    ensures forall x :: x in TimeColumnNames + LagNames(lags) + RollNames(windows) ==> x !in BaseColumns
  {
    var news := FeatureColumns(tz, rows, lags, windows);
    FeatureNamesUnique(tz, rows, lags, windows);
    FeatureNames(tz, rows, lags, windows);
    AddedNamesApart(lags, windows);
    NamesAssignAll([], news);
    var none: seq<Column> := [];
    assert Names(none) == [];
  }

  lemma UniqueAfterBase(ns: seq<string>)
    requires Unique(ns) && forall x :: x in ns ==> x !in BaseColumns
    ensures Unique(BaseColumns + ns)
  {
    UniqueConcat(BaseColumns, ns);
  }

  lemma ConcatAssoc(a: seq<string>, b: seq<string>, c: seq<string>, d: seq<string>)
    ensures a + (b + c + d) == a + b + c + d
  {
  }

  /** Row r of the model-ready table is row r of the enriched panel: the
      rows keep their number and their order. */
  lemma ModelReadyKeys(tz: Instant -> int, rows: seq<EnrichedRow>, lags: seq<nat>, windows: seq<nat>, r: nat)
    requires r < |rows|
    ensures ValueAt(ModelReady(tz, rows, lags, windows), "h3_cell", r) == Some(Int(rows[r].cell))
    ensures ValueAt(ModelReady(tz, rows, lags, windows), "ts_hour", r) == Some(Int(rows[r].hour))
    ensures ValueAt(ModelReady(tz, rows, lags, windows), "calls", r) == Some(Int(rows[r].calls))
  {
    var news := FeatureColumns(tz, rows, lags, windows);
    LengthsAssignAll([], news, |rows|);
    ToTableKeys(rows, AssignAll([], news), r);
  }

  lemma ToTableKeys(rows: seq<EnrichedRow>, cols: seq<Column>, r: nat)
    requires forall j :: 0 <= j < |cols| ==> |cols[j].values| == |rows|
    requires r < |rows|
    ensures ValueAt(ToTable(rows, cols), "h3_cell", r) == Some(Int(rows[r].cell))
    ensures ValueAt(ToTable(rows, cols), "ts_hour", r) == Some(Int(rows[r].hour))
    ensures ValueAt(ToTable(rows, cols), "calls", r) == Some(Int(rows[r].calls))
  {
    BaseIndices();
    ToTableBaseValue(rows, cols, "h3_cell", 0, r);
    ToTableBaseValue(rows, cols, "ts_hour", 1, r);
    ToTableBaseValue(rows, cols, "calls", 2, r);
  }

  /** A column of the enriched panel read back from the table. */
  lemma ToTableBaseValue(rows: seq<EnrichedRow>, cols: seq<Column>, name: string, i: nat, r: nat)
    requires forall j :: 0 <= j < |cols| ==> |cols[j].values| == |rows|
    requires IndexOf(BaseColumns, name) == Some(i) && r < |rows|
    ensures ValueAt(ToTable(rows, cols), name, r) == Some(BaseValues(rows[r])[i])
  {
    IndexOfBefore(BaseColumns, Names(cols), name);
    var t := ToTable(rows, cols);
    assert t.rows[r][i] == BaseValues(rows[r])[i];
  }

  lemma BaseIndices()
    ensures IndexOf(BaseColumns, "h3_cell") == Some(0)
    ensures IndexOf(BaseColumns, "ts_hour") == Some(1)
    ensures IndexOf(BaseColumns, "calls") == Some(2)
  {
    assert BaseColumns[0] == "h3_cell" && BaseColumns[1] == "ts_hour" && BaseColumns[2] == "calls";
  }

  /** A name among the first columns is found there. */
  lemma {:induction false} IndexOfBefore(a: seq<string>, b: seq<string>, n: string)
    requires n in a
    ensures IndexOf(a + b, n) == IndexOf(a, n)
  {
    if a[0] != n {
      assert (a + b)[1..] == a[1..] + b;
      IndexOfBefore(a[1..], b, n);
    }
  }

  /** Calendar column f of the model-ready table at row r. */
  lemma ModelReadyTime(tz: Instant -> int, rows: seq<EnrichedRow>, lags: seq<nat>, windows: seq<nat>, f: nat, r: nat)
    requires NoRepeats(lags) && NoRepeats(windows) && f < 6 && r < |rows|
    ensures ValueAt(ModelReady(tz, rows, lags, windows), TimeColumnNames[f], r) == Some(Int(TimeField(tz, rows[r], f)))
  {
    var tc := TimeColumns(tz, rows);
    assert FeatureColumns(tz, rows, lags, windows)[f] == tc[f];
    FeatureValue(tz, rows, lags, windows, f, TimeColumnNames[f], tc[f].values, r);
  }

  /** The calendar fields of row r are those of its ts_hour on the New York
      wall clock: the civil date, the hour, the weekday and the weekend flag,
      which is 1 exactly on days 5 and 6. */
  lemma ModelReadyCalendar(tz: Instant -> int, rows: seq<EnrichedRow>, lags: seq<nat>, windows: seq<nat>, r: nat)
    requires NoRepeats(lags) && NoRepeats(windows) && r < |rows|
    ensures ValueAt(ModelReady(tz, rows, lags, windows), "year", r) ==
      Some(Int(Calendar.CivilFromDays(Calendar.DayNumber(Calendar.LocalSeconds(tz, rows[r].hour))).year))
    ensures ValueAt(ModelReady(tz, rows, lags, windows), "month", r) ==
      Some(Int(Calendar.CivilFromDays(Calendar.DayNumber(Calendar.LocalSeconds(tz, rows[r].hour))).month))
    ensures ValueAt(ModelReady(tz, rows, lags, windows), "day", r) ==
      Some(Int(Calendar.CivilFromDays(Calendar.DayNumber(Calendar.LocalSeconds(tz, rows[r].hour))).day))
    ensures ValueAt(ModelReady(tz, rows, lags, windows), "hour", r) ==
      Some(Int(Calendar.HourOfDay(Calendar.LocalSeconds(tz, rows[r].hour))))
    ensures ValueAt(ModelReady(tz, rows, lags, windows), "day_of_week", r) ==
      Some(Int(Calendar.DayOfWeek(Calendar.LocalSeconds(tz, rows[r].hour))))
    ensures ValueAt(ModelReady(tz, rows, lags, windows), "is_weekend", r) ==
      Some(Int(if Calendar.DayOfWeek(Calendar.LocalSeconds(tz, rows[r].hour)) in {5, 6} then 1 else 0))
  {
    ModelReadyTime(tz, rows, lags, windows, 0, r);
    ModelReadyTime(tz, rows, lags, windows, 1, r);
    ModelReadyTime(tz, rows, lags, windows, 2, r);
    ModelReadyTime(tz, rows, lags, windows, 3, r);
    ModelReadyTime(tz, rows, lags, windows, 4, r);
    ModelReadyTime(tz, rows, lags, windows, 5, r);
    var w := Calendar.DayOfWeek(Calendar.LocalSeconds(tz, rows[r].hour));
    if w in {5, 6} {
      assert Calendar.IsWeekend(w) == 1;
    } else {
      assert Calendar.IsWeekend(w) == 0;
    }
  }

  /** calls_lag_{k}h at row r is groupby("h3_cell")["calls"].shift(k) at r. */
  lemma ModelReadyLag(tz: Instant -> int, rows: seq<EnrichedRow>, lags: seq<nat>, windows: seq<nat>, j: nat, r: nat)
    requires NoRepeats(lags) && NoRepeats(windows) && j < |lags| && r < |rows|
    ensures ValueAt(ModelReady(tz, rows, lags, windows), LagName(lags[j]), r) ==
      Some(OptValue(Windows.Lag(CellsOf(rows), CallsOf(rows), lags[j], r)))
  {
    var news := FeatureColumns(tz, rows, lags, windows);
    assert news[6 + j] == LagColumns(rows, lags)[j];
    FeatureValue(tz, rows, lags, windows, 6 + j, LagName(lags[j]), LagValues(rows, lags[j]), r);
  }

  /** calls_rollmean_{w}h and calls_rollstd_{w}h at row r are the per-cell
      rolling mean and deviation at r. */
  lemma ModelReadyRolling(tz: Instant -> int, rows: seq<EnrichedRow>, lags: seq<nat>, windows: seq<nat>, m: nat, r: nat)
    requires NoRepeats(lags) && NoRepeats(windows) && m < |windows| && r < |rows|
    ensures ValueAt(ModelReady(tz, rows, lags, windows), RollMeanName(windows[m]), r) ==
      Some(Windows.Rolling(CellsOf(rows), CallsOf(rows), windows[m], Windows.MeanStat, r))
    ensures ValueAt(ModelReady(tz, rows, lags, windows), RollStdName(windows[m]), r) ==
      Some(Windows.Rolling(CellsOf(rows), CallsOf(rows), windows[m], Windows.StdStat, r))
  {
    ModelReadyRollMean(tz, rows, lags, windows, m, r);
    ModelReadyRollStd(tz, rows, lags, windows, m, r);
  }

  lemma ModelReadyRollMean(tz: Instant -> int, rows: seq<EnrichedRow>, lags: seq<nat>, windows: seq<nat>, m: nat, r: nat)
    requires NoRepeats(lags) && NoRepeats(windows) && m < |windows| && r < |rows|
    ensures ValueAt(ModelReady(tz, rows, lags, windows), RollMeanName(windows[m]), r) ==
      Some(Windows.Rolling(CellsOf(rows), CallsOf(rows), windows[m], Windows.MeanStat, r))
  {
    RollingColumnsAt(rows, windows, m);
    ModelReadyRollingColumn(tz, rows, lags, windows, 2 * m, r, RollMeanName(windows[m]), windows[m], Windows.MeanStat);
  }

  lemma ModelReadyRollStd(tz: Instant -> int, rows: seq<EnrichedRow>, lags: seq<nat>, windows: seq<nat>, m: nat, r: nat)
    requires NoRepeats(lags) && NoRepeats(windows) && m < |windows| && r < |rows|
    ensures ValueAt(ModelReady(tz, rows, lags, windows), RollStdName(windows[m]), r) ==
      Some(Windows.Rolling(CellsOf(rows), CallsOf(rows), windows[m], Windows.StdStat, r))
  {
    RollingColumnsAt(rows, windows, m);
    ModelReadyRollingColumn(tz, rows, lags, windows, 2 * m + 1, r, RollStdName(windows[m]), windows[m], Windows.StdStat);
  }

  /** Rolling column i of the model-ready table at row r. */
  lemma ModelReadyRollingColumn(tz: Instant -> int, rows: seq<EnrichedRow>, lags: seq<nat>, windows: seq<nat>,
                                i: nat, r: nat, name: string, w: nat, stat: Windows.Stat)
    requires NoRepeats(lags) && NoRepeats(windows) && r < |rows|
    requires i < 2 * |windows| && RollingColumns(rows, windows)[i] == Column(name, RollingValues(rows, w, stat))
    ensures ValueAt(ModelReady(tz, rows, lags, windows), name, r) ==
      Some(Windows.Rolling(CellsOf(rows), CallsOf(rows), w, stat, r))
  {
    RollingFeatureColumn(tz, rows, lags, windows, i);
    FeatureValue(tz, rows, lags, windows, 6 + |lags| + i, name, RollingValues(rows, w, stat), r);
  }

  /** Rolling column i is added after the six calendar columns and the lags. */
  lemma RollingFeatureColumn(tz: Instant -> int, rows: seq<EnrichedRow>, lags: seq<nat>, windows: seq<nat>, i: nat)
    requires i < 2 * |windows|
    ensures FeatureColumns(tz, rows, lags, windows)[6 + |lags| + i] == RollingColumns(rows, windows)[i]
  {
    var t, l, r := TimeColumns(tz, rows), LagColumns(rows, lags), RollingColumns(rows, windows);
    assert FeatureColumns(tz, rows, lags, windows) == t + l + r;
    assert (t + l + r)[|t| + |l| + i] == r[i];
  }

  /** sort_values(["h3_cell", "ts_hour"]) order puts each cell's rows in one run. */
  lemma SortedCells(rows: seq<EnrichedRow>)
    requires SortedByKey(rows)
    ensures Windows.CellsSorted(CellsOf(rows))
  {
    forall i, j | 0 <= i < j < |rows| ensures rows[i].cell <= rows[j].cell {
      assert KeyLess(EnrichedKey(rows[i]), EnrichedKey(rows[j]));
    }
  }

  /** On the sorted panel, calls_lag_{k}h at row r is the calls of row r - k
      when that row has the same cell, and null otherwise. */
  lemma ModelReadyLagInRun(tz: Instant -> int, rows: seq<EnrichedRow>, lags: seq<nat>, windows: seq<nat>, j: nat, r: nat)
    requires SortedByKey(rows) && NoRepeats(lags) && NoRepeats(windows)
    requires j < |lags| && lags[j] >= 1 && r < |rows|
    ensures ValueAt(ModelReady(tz, rows, lags, windows), LagName(lags[j]), r) ==
      Some(if lags[j] <= r && rows[r - lags[j]].cell == rows[r].cell then Int(rows[r - lags[j]].calls) else Null)
  {
    var k := lags[j];
    LagValueInRun(rows, k, r);
    if k <= r && rows[r - k].cell == rows[r].cell {
      ModelReadyLagIs(tz, rows, lags, windows, j, r, Int(rows[r - k].calls));
    } else {
      ModelReadyLagIs(tz, rows, lags, windows, j, r, Null);
    }
  }

  lemma ModelReadyLagIs(tz: Instant -> int, rows: seq<EnrichedRow>, lags: seq<nat>, windows: seq<nat>, j: nat, r: nat, v: Value)
    requires NoRepeats(lags) && NoRepeats(windows) && j < |lags| && r < |rows|
    requires OptValue(Windows.Lag(CellsOf(rows), CallsOf(rows), lags[j], r)) == v
    ensures ValueAt(ModelReady(tz, rows, lags, windows), LagName(lags[j]), r) == Some(v)
  {
    ModelReadyLag(tz, rows, lags, windows, j, r);
  }

  lemma LagValueInRun(rows: seq<EnrichedRow>, k: nat, r: nat)
    requires SortedByKey(rows) && k >= 1 && r < |rows|
    ensures OptValue(Windows.Lag(CellsOf(rows), CallsOf(rows), k, r)) ==
      if k <= r && rows[r - k].cell == rows[r].cell then Int(rows[r - k].calls) else Null
  {
    SortedCells(rows);
    Windows.LagInRun(CellsOf(rows), CallsOf(rows), k, r);
  }

  /** main's own arguments meet the contracts of add_lag_features and
      add_rolling_features: no lag or window twice, every window at least 1
      and at most one more than the longest lag, 24. */
  lemma DefaultArguments()
    ensures NoRepeats(DefaultLags) && NoRepeats(DefaultWindows)
    ensures forall j :: 0 <= j < |DefaultWindows| ==> 1 <= DefaultWindows[j] <= DefaultLags[5] + 1
    ensures DefaultLags[5] == 24
  {
  }

  /** On a row whose calls_lag_{k}h is not null, for a window of at most
      k + 1 rows, the per-cell rolling columns hold what lines 38-51 compute
      as written: there the two definitions cannot tell apart. */
  lemma ModelReadyRollingAsWritten(tz: Instant -> int, rows: seq<EnrichedRow>, lags: seq<nat>, windows: seq<nat>,
                                   j: nat, m: nat, r: nat)
    requires SortedByKey(rows) && NoRepeats(lags) && NoRepeats(windows)
    requires j < |lags| && lags[j] >= 1 && m < |windows| && 1 <= windows[m] <= lags[j] + 1 && r < |rows|
    requires ValueAt(ModelReady(tz, rows, lags, windows), LagName(lags[j]), r) != Some(Null)
    ensures ValueAt(ModelReady(tz, rows, lags, windows), RollMeanName(windows[m]), r) ==
      Some(Windows.RollingAsWritten(CellsOf(rows), CallsOf(rows), windows[m], Windows.MeanStat, r))
    ensures ValueAt(ModelReady(tz, rows, lags, windows), RollStdName(windows[m]), r) ==
      Some(Windows.RollingAsWritten(CellsOf(rows), CallsOf(rows), windows[m], Windows.StdStat, r))
  {
    ModelReadyLag(tz, rows, lags, windows, j, r);
    ModelReadyRolling(tz, rows, lags, windows, m, r);
    SortedCells(rows);
    Windows.AsWrittenAgreesPastLag(CellsOf(rows), CallsOf(rows), lags[j], windows[m], Windows.MeanStat, r);
    Windows.AsWrittenAgreesPastLag(CellsOf(rows), CallsOf(rows), lags[j], windows[m], Windows.StdStat, r);
  }
}
