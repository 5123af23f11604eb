/**
 * The lag and rolling-window features of scripts/panel_feature_engineering.py,
 * as functions of the sorted panel's cell column and calls column.
 *
 * `Lag` is groupby("h3_cell")["calls"].shift(k). `Rolling` is the per-cell
 * rolling statistic of the shifted series that the functions' docstrings
 * promise; `RollingAsWritten` is what lines 38-51 compute, where the window
 * of .rolling runs over the whole table because .shift(1) has already left
 * the groupby.
 */
module Windows {
  import opened Common

  // ---------------------------------------------------------------------------
  // Per-cell history

  /** The calls of the rows before position n whose cell is c, in table order. */
  function Before(cells: seq<CellId>, calls: seq<int>, c: CellId, n: nat): (s: seq<int>)
    requires n <= |cells| == |calls|
    ensures |s| <= n
  {
    if n == 0 then []
    else Before(cells, calls, c, n - 1) + (if cells[n - 1] == c then [calls[n - 1]] else [])
  }

  /** The calls of row r's own cell at the rows before r: the history that
      groupby("h3_cell") gives row r. */
  function Prior(cells: seq<CellId>, calls: seq<int>, r: nat): seq<int>
    requires r < |cells| == |calls|
  {
    Before(cells, calls, cells[r], r)
  }

  /** groupby("h3_cell")["calls"].shift(k) at row r: the call count k rows
      back in the row's own cell, null when the cell has fewer earlier rows. */
  function Lag(cells: seq<CellId>, calls: seq<int>, k: nat, r: nat): Option<int>
    requires r < |cells| == |calls|
  {
    Back(Prior(cells, calls, r), calls[r], k)
  }

  /** The value k steps back from x at the end of the series p + [x]. */
  function Back(p: seq<int>, x: int, k: nat): Option<int>
  {
    if k == 0 then Some(x)
    else if k <= |p| then Some(p[|p| - k])
    else None
  }

  // ---------------------------------------------------------------------------
  // Window statistics (min_periods=1, ddof=1)

  function Sum(xs: seq<int>): int
  {
    if xs == [] then 0 else Sum(xs[..|xs| - 1]) + xs[|xs| - 1]
  }

  function Mean(xs: seq<int>): (m: Option<real>)
    ensures m.Some? <==> xs != []
    ensures m.Some? ==> m.value * |xs| as real == Sum(xs) as real
  {
    if xs == [] then None else Some(Sum(xs) as real / |xs| as real)
  }

  function SquaredDeviation(xs: seq<int>, m: real): (d: real)
    ensures d >= 0.0
  {
    if xs == [] then 0.0
    else SquaredDeviation(xs[..|xs| - 1], m) + (xs[|xs| - 1] as real - m) * (xs[|xs| - 1] as real - m)
  }

  /** The sample variance, defined from two values on. */
  function Variance(xs: seq<int>): (v: Option<real>)
    ensures v.Some? <==> |xs| >= 2
    ensures v.Some? ==> v.value >= 0.0
  {
    if |xs| < 2 then None
    else Some(SquaredDeviation(xs, Mean(xs).value) / (|xs| - 1) as real)
  }

  datatype Stat = MeanStat | StdStat

  /** .mean() or .std() of the values present in a window, as a column value:
      the mean is null only for an empty window, the standard deviation (kept
      as the root of the variance) is null for fewer than two values. */
  function Summary(stat: Stat, xs: seq<int>): (v: Value)
    ensures v == Null <==> (stat == MeanStat && xs == []) || (stat == StdStat && |xs| < 2)
    ensures stat == MeanStat && v != Null ==> v.Num? && v.x * |xs| as real == Sum(xs) as real
    ensures stat == StdStat && v != Null ==> v.Root? && v.square >= 0.0
  {
    match stat
    case MeanStat => if xs == [] then Null else Num(Mean(xs).value)
    case StdStat => if |xs| < 2 then Null else Root(Variance(xs).value)
  }

  /** The last w entries of p, or all of p when it is shorter. */
  function Recent(p: seq<int>, w: nat): (r: seq<int>)
    ensures |r| == if |p| < w then |p| else w
    ensures forall i :: 0 <= i < |r| ==> r[i] == p[|p| - |r| + i]
  {
    if |p| <= w then p else p[|p| - w..]
  }

  // ---------------------------------------------------------------------------
  // Rolling features, per cell (the intended definition)

  /** The window row r's rolling features read: the last w calls of its own
      cell before r. */
  function CellWindow(cells: seq<CellId>, calls: seq<int>, w: nat, r: nat): seq<int>
    requires r < |cells| == |calls|
  {
    Recent(Prior(cells, calls, r), w)
  }

  /** calls_roll{mean,std}_{w}h at row r, per cell. */
  function Rolling(cells: seq<CellId>, calls: seq<int>, w: nat, stat: Stat, r: nat): Value
    requires r < |cells| == |calls|
  {
    Summary(stat, CellWindow(cells, calls, w, r))
  }

  // ---------------------------------------------------------------------------
  // Rolling features as lines 38-51 compute them

  /** The plain Series groupby("h3_cell")["calls"].shift(1). */
  function Shifted(cells: seq<CellId>, calls: seq<int>): (s: seq<Option<int>>)
    requires |cells| == |calls|
    ensures |s| == |cells|
  {
    seq(|cells|, r requires 0 <= r < |cells| => Lag(cells, calls, 1, r))
  }

  /** The non-null values of a series slice, in order. */
  function Present(s: seq<Option<int>>): seq<int>
  {
    if s == [] then []
    else Present(s[..|s| - 1]) + (match s[|s| - 1] case None => [] case Some(x) => [x])
  }

  /** The first row of .rolling(window=w)'s window at row r. */
  function WindowStart(w: nat, r: nat): nat
  {
    if r + 1 >= w then r + 1 - w else 0
  }

  /** The window .rolling(window=w) reads at row r of the whole sorted table:
      the non-null shifted values at rows WindowStart(w, r) .. r, whatever cell
      they belong to. */
  function TableWindow(cells: seq<CellId>, calls: seq<int>, w: nat, r: nat): seq<int>
    requires r < |cells| == |calls|
  {
    Present(Shifted(cells, calls)[WindowStart(w, r)..r + 1])
  }

  function RollingAsWritten(cells: seq<CellId>, calls: seq<int>, w: nat, stat: Stat, r: nat): Value
    requires r < |cells| == |calls|
  {
    Summary(stat, TableWindow(cells, calls, w, r))
  }

  // ---------------------------------------------------------------------------
  // No leakage

  /** Same-cell agreement before position n. */
  ghost predicate AgreeBefore(cells: seq<CellId>, calls: seq<int>, calls2: seq<int>, c: CellId, n: nat)
    requires n <= |cells| == |calls| == |calls2|
  {
    forall j :: 0 <= j < n && cells[j] == c ==> calls[j] == calls2[j]
  }

  lemma {:induction false} BeforeReadsOnlyPast(cells: seq<CellId>, calls: seq<int>, calls2: seq<int>, c: CellId, n: nat)
    requires n <= |cells| == |calls| == |calls2|
    requires AgreeBefore(cells, calls, calls2, c, n)
    ensures Before(cells, calls, c, n) == Before(cells, calls2, c, n)
  {
    if n > 0 {
      BeforeReadsOnlyPast(cells, calls, calls2, c, n - 1);
    }
  }

  /** A positive lag reads only the calls of the row's own cell strictly
      before it: changing the row's own calls, any later row's, or any other
      cell's leaves it as it was. */
  lemma LagNoLeakage(cells: seq<CellId>, calls: seq<int>, calls2: seq<int>, k: nat, r: nat)
    requires r < |cells| == |calls| == |calls2| && k >= 1
    requires AgreeBefore(cells, calls, calls2, cells[r], r)
    ensures Lag(cells, calls, k, r) == Lag(cells, calls2, k, r)
  {
    BeforeReadsOnlyPast(cells, calls, calls2, cells[r], r);
  }

  /** The per-cell rolling features read the same history, and nothing else. */
  lemma RollingNoLeakage(cells: seq<CellId>, calls: seq<int>, calls2: seq<int>, w: nat, stat: Stat, r: nat)
    requires r < |cells| == |calls| == |calls2|
    requires AgreeBefore(cells, calls, calls2, cells[r], r)
    ensures Rolling(cells, calls, w, stat, r) == Rolling(cells, calls2, w, stat, r)
  {
    BeforeReadsOnlyPast(cells, calls, calls2, cells[r], r);
  }

  /** As written, the rolling features still read no row at or after r:
      the shift keeps the current row and the future out of the window. */
  lemma RollingAsWrittenNoFutureLeak(cells: seq<CellId>, calls: seq<int>, calls2: seq<int>, w: nat, stat: Stat, r: nat)
    requires r < |cells| == |calls| == |calls2|
    requires forall j :: 0 <= j < r ==> calls[j] == calls2[j]
    ensures RollingAsWritten(cells, calls, w, stat, r) == RollingAsWritten(cells, calls2, w, stat, r)
  {
    var lo := WindowStart(w, r);
    var s1, s2 := Shifted(cells, calls), Shifted(cells, calls2);
    forall j | lo <= j <= r ensures s1[j] == s2[j] {
      BeforeReadsOnlyPast(cells, calls, calls2, cells[j], j);
    }
    assert s1[lo..r + 1] == s2[lo..r + 1];
  }

  /** A row whose cell has no earlier row gets null lags and null rolling
      features in the per-cell definition: a one-row cell has all of them null. */
  lemma FirstRowOfCellIsNull(cells: seq<CellId>, calls: seq<int>, k: nat, w: nat, stat: Stat, r: nat)
    requires r < |cells| == |calls| && k >= 1
    requires forall j :: 0 <= j < r ==> cells[j] != cells[r]
    ensures Lag(cells, calls, k, r) == None
    ensures Rolling(cells, calls, w, stat, r) == Null
  {
    BeforeAbsent(cells, calls, cells[r], r);
  }

  lemma {:induction false} BeforeAbsent(cells: seq<CellId>, calls: seq<int>, c: CellId, n: nat)
    requires n <= |cells| == |calls|
    requires forall j :: 0 <= j < n ==> cells[j] != c
    ensures Before(cells, calls, c, n) == []
  {
    if n > 0 {
      BeforeAbsent(cells, calls, c, n - 1);
    }
  }

  // ---------------------------------------------------------------------------
  // On the sorted panel, each cell's rows form one run

  /** The cell column in non-decreasing order, as sort_values leaves it. */
  predicate CellsSorted(cells: seq<CellId>)
  {
    forall i, j :: 0 <= i < j < |cells| ==> cells[i] <= cells[j]
  }

  /** The first row of the run of equal cells that row r belongs to. */
  function RunStart(cells: seq<CellId>, r: nat): (s: nat)
    requires r < |cells|
    ensures s <= r
    ensures forall j :: s <= j <= r ==> cells[j] == cells[r]
    ensures s == 0 || cells[s - 1] != cells[r]
  {
    if r == 0 || cells[r - 1] != cells[r] then r else RunStart(cells, r - 1)
  }

  lemma {:induction false} BeforeInRun(cells: seq<CellId>, calls: seq<int>, c: CellId, s: nat, n: nat)
    requires s <= n <= |cells| == |calls|
    requires Before(cells, calls, c, s) == []
    requires forall j :: s <= j < n ==> cells[j] == c
    ensures Before(cells, calls, c, n) == calls[s..n]
  {
    if n > s {
      BeforeInRun(cells, calls, c, s, n - 1);
      assert calls[s..n] == calls[s..n - 1] + [calls[n - 1]];
    }
  }

  /** On sorted cells, a row's history is the run of calls before it. */
  lemma PriorInRun(cells: seq<CellId>, calls: seq<int>, r: nat)
    requires r < |cells| == |calls| && CellsSorted(cells)
    ensures Prior(cells, calls, r) == calls[RunStart(cells, r)..r]
  {
    var s := RunStart(cells, r);
    forall j | 0 <= j < s ensures cells[j] != cells[r] {
      assert cells[j] <= cells[s - 1] <= cells[s];
    }
    BeforeAbsent(cells, calls, cells[r], s);
    BeforeInRun(cells, calls, cells[r], s, r);
  }

  /** On the sorted panel, calls_lag_{k}h at row r is the calls of row r - k
      when that row has the same cell, and null otherwise: null exactly for
      the first k rows of each cell's run. */
  lemma LagInRun(cells: seq<CellId>, calls: seq<int>, k: nat, r: nat)
    requires r < |cells| == |calls| && CellsSorted(cells) && k >= 1
    ensures Lag(cells, calls, k, r) ==
      if k <= r && cells[r - k] == cells[r] then Some(calls[r - k]) else None
    ensures Lag(cells, calls, k, r).None? <==> r - RunStart(cells, r) < k
  {
    var s := RunStart(cells, r);
    PriorInRun(cells, calls, r);
    if k <= r && r - k < s {
      assert cells[r - k] <= cells[s - 1] <= cells[s];
    }
  }

  /** On the sorted panel, the shifted series is null at the first row of a
      run and the previous call at every later row of it. */
  lemma ShiftedInRun(cells: seq<CellId>, calls: seq<int>, r: nat, j: nat)
    requires r < |cells| == |calls| && CellsSorted(cells)
    requires RunStart(cells, r) <= j <= r
    ensures Shifted(cells, calls)[j] ==
      if j == RunStart(cells, r) then None else Some(calls[j - 1])
  {
    LagInRun(cells, calls, 1, j);
  }

  /** Present over a stretch of a series that is null at row s and the
      previous call at every later row up to m: the first row contributes
      nothing, every later row the call before it. */
  lemma {:induction false} PresentOfShiftedRun(sh: seq<Option<int>>, calls: seq<int>, s: nat, lo: nat, m: nat)
    requires s <= lo < m <= |sh| && m <= |calls| + 1
    requires sh[s] == None
    requires forall j :: s < j < m ==> sh[j] == Some(calls[j - 1])
    ensures Present(sh[lo..m]) == calls[(if lo == s then lo else lo - 1)..m - 1]
  {
    var a := if lo == s then lo else lo - 1;
    var x := sh[lo..m];
    assert x[|x| - 1] == sh[m - 1];
    if m == lo + 1 {
      assert x[..|x| - 1] == [];
    } else {
      PresentOfShiftedRun(sh, calls, s, lo, m - 1);
      assert x[..|x| - 1] == sh[lo..m - 1];
      assert calls[a..m - 1] == calls[a..m - 2] + [calls[m - 2]];
    }
  }

  /** The as-written window agrees with the per-cell one exactly as long as
      it does not reach back past the first row of the row's own run. */
  lemma AsWrittenAgreesInsideRun(cells: seq<CellId>, calls: seq<int>, w: nat, stat: Stat, r: nat)
    requires r < |cells| == |calls| && CellsSorted(cells) && w >= 1
    requires RunStart(cells, r) <= WindowStart(w, r)
    ensures RollingAsWritten(cells, calls, w, stat, r) == Rolling(cells, calls, w, stat, r)
  {
    TableWindowInRun(cells, calls, w, r);
    CellWindowInRun(cells, calls, w, r);
  }

  /** Inside the run, the as-written window is a stretch of earlier calls. */
  lemma TableWindowInRun(cells: seq<CellId>, calls: seq<int>, w: nat, r: nat)
    requires r < |cells| == |calls| && CellsSorted(cells) && w >= 1
    requires RunStart(cells, r) <= WindowStart(w, r)
    ensures TableWindow(cells, calls, w, r) ==
      calls[(if WindowStart(w, r) == RunStart(cells, r) then WindowStart(w, r) else WindowStart(w, r) - 1)..r]
  {
    ShiftedOverRun(cells, calls, r);
    PresentOfShiftedRun(Shifted(cells, calls), calls, RunStart(cells, r), WindowStart(w, r), r + 1);
  }

  /** ShiftedInRun at every row of the run up to r. */
  lemma ShiftedOverRun(cells: seq<CellId>, calls: seq<int>, r: nat)
    requires r < |cells| == |calls| && CellsSorted(cells)
    ensures Shifted(cells, calls)[RunStart(cells, r)] == None
    ensures forall j :: RunStart(cells, r) < j <= r ==> Shifted(cells, calls)[j] == Some(calls[j - 1])
  {
    forall j | RunStart(cells, r) <= j <= r
      ensures Shifted(cells, calls)[j] == if j == RunStart(cells, r) then None else Some(calls[j - 1])
    {
      ShiftedInRun(cells, calls, r, j);
    }
  }

  /** Inside the run, the per-cell window is the same stretch of calls. */
  lemma CellWindowInRun(cells: seq<CellId>, calls: seq<int>, w: nat, r: nat)
    requires r < |cells| == |calls| && CellsSorted(cells) && w >= 1
    requires RunStart(cells, r) <= WindowStart(w, r)
    ensures CellWindow(cells, calls, w, r) ==
      calls[(if WindowStart(w, r) == RunStart(cells, r) then WindowStart(w, r) else WindowStart(w, r) - 1)..r]
  {
    PriorInRun(cells, calls, r);
    RecentOfRun(calls, RunStart(cells, r), r, w);
  }

  /** The last w calls of the run s .. r - 1, when the window starting at
      WindowStart(w, r) does not reach back past s. */
  lemma RecentOfRun(calls: seq<int>, s: nat, r: nat, w: nat)
    requires s <= WindowStart(w, r) && r < |calls| && w >= 1
    ensures Recent(calls[s..r], w) ==
      calls[(if WindowStart(w, r) == s then s else WindowStart(w, r) - 1)..r]
  {
    if WindowStart(w, r) != s {
      assert calls[s..r][r - s - w..] == calls[r - w..r];
    }
  }

  /** Where lag k of row r is present, the row's run reaches k rows back, so
      the as-written window of any w <= k + 1 rows stays inside the run and
      agrees with the per-cell one. */
  lemma AsWrittenAgreesPastLag(cells: seq<CellId>, calls: seq<int>, k: nat, w: nat, stat: Stat, r: nat)
    requires r < |cells| == |calls| && CellsSorted(cells) && k >= 1 && 1 <= w <= k + 1
    requires Lag(cells, calls, k, r).Some?
    ensures RollingAsWritten(cells, calls, w, stat, r) == Rolling(cells, calls, w, stat, r)
  {
    LagInRun(cells, calls, k, r);
    AsWrittenAgreesInsideRun(cells, calls, w, stat, r);
  }

  // ---------------------------------------------------------------------------
  // The finding: as written, the window crosses cell boundaries

  /** Two cells 7 and 9, sorted; cell 9 has a single row. As written, that
      row's rolling mean over a 3-hour window is 5.0, cell 7's first count,
      and it moves when cell 7's count moves; per cell it is null. */
  lemma RollingCrossesCells()
    ensures RollingAsWritten([7, 7, 9], [5, 3, 8], 3, MeanStat, 2) == Num(5.0)
    ensures RollingAsWritten([7, 7, 9], [6, 3, 8], 3, MeanStat, 2) == Num(6.0)
    ensures Rolling([7, 7, 9], [5, 3, 8], 3, MeanStat, 2) == Null
  {
    CrossingWindow(5);
    CrossingWindow(6);
    FirstRowOfCellIsNull([7, 7, 9], [5, 3, 8], 1, 3, MeanStat, 2);
  }

  /** The as-written window of the single row of cell 9 holds cell 7's first count. */
  lemma CrossingWindow(x: int)
    ensures TableWindow([7, 7, 9], [x, 3, 8], 3, 2) == [x]
    ensures Sum([x]) == x
  {
    var cells, calls := [7, 7, 9], [x, 3, 8];
    assert Before(cells, calls, 7, 1) == [x] by {
      assert Before(cells, calls, 7, 0) == [];
    }
    assert Before(cells, calls, 9, 2) == [] by {
      BeforeAbsent(cells, calls, 9, 2);
    }
    var sh := Shifted(cells, calls);
    assert sh == [None, Some(x), None];
    assert sh[0..3] == sh;
    var s1: seq<Option<int>> := [None];
    var s2: seq<Option<int>> := [None, Some(x)];
    assert s1[..0] == [] && Present(s1) == [];
    assert s2[..1] == s1 && Present(s2) == [x];
    assert sh[..2] == s2;
    assert [x][..0] == [];
  }

  /** The lags and the per-cell rolling mean of one cell observed at three
      consecutive hours with calls 5, 3, 8: lag 1 is null, 5, 3 and the
      2-hour rolling mean is null, 5.0, 4.0. */
  lemma OneCellExample(c: CellId)
    ensures Lag([c, c, c], [5, 3, 8], 1, 0) == None
    ensures Lag([c, c, c], [5, 3, 8], 1, 1) == Some(5)
    ensures Lag([c, c, c], [5, 3, 8], 1, 2) == Some(3)
    ensures Rolling([c, c, c], [5, 3, 8], 2, MeanStat, 0) == Null
    ensures Rolling([c, c, c], [5, 3, 8], 2, MeanStat, 1) == Num(5.0)
    ensures Rolling([c, c, c], [5, 3, 8], 2, MeanStat, 2) == Num(4.0)
  {
    var cells, calls := [c, c, c], [5, 3, 8];
    assert CellsSorted(cells);
    LagInRun(cells, calls, 1, 0);
    LagInRun(cells, calls, 1, 1);
    LagInRun(cells, calls, 1, 2);
    OneCellWindows(c);
  }

  lemma OneCellWindows(c: CellId)
    ensures CellWindow([c, c, c], [5, 3, 8], 2, 0) == []
    ensures CellWindow([c, c, c], [5, 3, 8], 2, 1) == [5]
    ensures CellWindow([c, c, c], [5, 3, 8], 2, 2) == [5, 3]
    ensures Sum([5]) == 5 && Sum([5, 3]) == 8
  {
    var cells, calls := [c, c, c], [5, 3, 8];
    PriorInRun(cells, calls, 0);
    PriorInRun(cells, calls, 1);
    PriorInRun(cells, calls, 2);
    assert calls[0..2] == [5, 3] && calls[0..1] == [5];
    assert [5, 3][..1] == [5] && [5][..0] == [];
  }
}
