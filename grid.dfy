/**
 * scripts/aggregate_to_grid.py: events are bucketed into (cell, hour) pairs,
 * counted into a panel, checked for count conservation, and described by one
 * metadata row per cell and an optional GeoJSON polygon per cell.
 */
module Grid {
  import opened Common

  /** H3_RES, the resolution every event is indexed at. */
  const H3Res: nat := 8

  const SecondsPerHour: int := 3600

  /** A boundary vertex as H3 returns it: (lat, lng). */
  datatype LatLng = LatLng(lat: real, lng: real)

  /** A GeoJSON position: [lng, lat]. */
  datatype LngLat = LngLat(lng: real, lat: real)

  /** The spatial index: the three H3 functions the script selects at import
      time (h3_cell_fn, h3_to_geo_fn, h3_to_boundary_fn), taken as given. */
  datatype H3 = H3(
    cellOf: (real, real, nat) -> CellId,
    centroidOf: CellId -> (real, real),
    boundaryOf: CellId -> seq<LatLng>)

  /** One input event. `creationDate` is None when `Creation Date` does not
      parse (pd.to_datetime with errors="coerce" makes it NaT). */
  datatype RawEvent = RawEvent(creationDate: Option<Instant>, latitude: real, longitude: real)

  /** The features CSV: which of the required columns it has, and its rows. */
  datatype EventTable = EventTable(hasCreationDate: bool, hasCoordinates: bool, rows: seq<RawEvent>)

  /** How main fails. EmptyCellAssignment is the ValueError of line 46 when
      no event is left: apply on an empty frame cannot call the lambda on a
      row, returns a copy of the whole frame, and a frame of several columns
      cannot be assigned to the single column h3_cell. */
  datatype GridError = MissingCreationDate | MissingCoordinates | EmptyCellAssignment | CountMismatch

  /** One GeoJSON feature: the cell (its only property) and its polygon ring. */
  datatype Feature = Feature(cell: CellId, ring: seq<LngLat>)

  /** What a successful run saves: the panel, the metadata, and the GeoJSON
      features when the optional export succeeded. */
  datatype GridOutput = GridOutput(panel: seq<PanelRow>, meta: seq<CellMeta>, geo: Option<seq<Feature>>)

  // ---------------------------------------------------------------------------
  // Temporal bucketing

  /** dt.floor("h") on a UTC instant. */
  function FloorHour(t: Instant): (h: Instant)
    ensures h % SecondsPerHour == 0
    ensures h <= t < h + SecondsPerHour
  {
    t - t % SecondsPerHour
  }

  /** The floor is the only hour boundary in (t - 3600, t]. */
  lemma FloorHourUnique(t: Instant, h: Instant)
    requires h % SecondsPerHour == 0 && h <= t < h + SecondsPerHour
    ensures h == FloorHour(t)
  {
    var f := FloorHour(t);
    var a, b := h / SecondsPerHour, f / SecondsPerHour;
    assert h == SecondsPerHour * a;
    assert f == SecondsPerHour * b;
    assert a <= b && b <= a;
  }

  lemma FloorHourIdempotent(t: Instant)
    ensures FloorHour(FloorHour(t)) == FloorHour(t)
  {
    FloorHourUnique(FloorHour(t), FloorHour(t));
  }

  lemma FloorHourMonotone(s: Instant, t: Instant)
    requires s <= t
    ensures FloorHour(s) <= FloorHour(t)
  {
    var fs, ft := FloorHour(s), FloorHour(t);
    var a, b := fs / SecondsPerHour, ft / SecondsPerHour;
    assert fs == SecondsPerHour * a;
    assert ft == SecondsPerHour * b;
    assert a <= b;
  }

  // ---------------------------------------------------------------------------
  // Column steps of main, lines 37-48

  /** df.dropna(subset=["Creation Date"]): the events whose date parsed, in order. */
  function Retained(rows: seq<RawEvent>): (r: seq<RawEvent>)
    ensures |r| <= |rows|
    ensures forall i :: 0 <= i < |r| ==> r[i].creationDate.Some?
    ensures forall e :: e in r <==> e in rows && e.creationDate.Some?
  {
    if rows == [] then []
    else
      var rest := Retained(rows[..|rows| - 1]);
      var e := rows[|rows| - 1];
      assert rows == rows[..|rows| - 1] + [e];
      if e.creationDate.Some? then rest + [e] else rest
  }

  /** One event is kept exactly when its date parsed. */
  lemma RetainedOne(e: RawEvent)
    ensures Retained([e]) == if e.creationDate.Some? then [e] else []
  {
    assert [e][..0] == [];
  }

  /** dropna keeps every dated row, in order and with its repetitions: it can
      be applied part by part. */
  lemma {:induction false} RetainedAppend(a: seq<RawEvent>, b: seq<RawEvent>)
    ensures Retained(a + b) == Retained(a) + Retained(b)
  {
    if b == [] {
      assert a + b == a;
    } else {
      var b0, x := b[..|b| - 1], b[|b| - 1];
      assert (a + b)[..|a + b| - 1] == a + b0;
      assert (a + b)[|a + b| - 1] == x;
      RetainedAppend(a, b0);
      assert b[..|b| - 1] == b0;
    }
  }

  /** A table whose dates all parsed loses no row. */
  lemma {:induction false} RetainedAllDated(rows: seq<RawEvent>)
    requires forall i :: 0 <= i < |rows| ==> rows[i].creationDate.Some?
    ensures Retained(rows) == rows
  {
    if rows != [] {
      RetainedAllDated(rows[..|rows| - 1]);
    }
  }

  /** The (h3_cell, ts_hour) of one retained event. The cell depends on the
      coordinates and H3Res alone; ts_hour is the UTC hour floor, whose
      instant tz_convert leaves unchanged. */
  function EventKey(api: H3, e: RawEvent): Key
    requires e.creationDate.Some?
  {
    Key(api.cellOf(e.latitude, e.longitude, H3Res), FloorHour(e.creationDate.value))
  }

  /** The key column pair of df after line 48, one entry per retained event. */
  function EventKeys(api: H3, rows: seq<RawEvent>): (keys: seq<Key>)
    ensures |keys| == |Retained(rows)|
  {
    var d := Retained(rows);
    seq(|d|, i requires 0 <= i < |d| => EventKey(api, d[i]))
  }

  /** Two retained events at the same coordinates fall in the same cell,
      wherever they stand in the table; two in the same UTC hour share ts_hour. */
  lemma SameCoordinatesSameCell(api: H3, rows: seq<RawEvent>, i: nat, j: nat)
    requires i < |Retained(rows)| && j < |Retained(rows)|
    ensures var d := Retained(rows);
      d[i].latitude == d[j].latitude && d[i].longitude == d[j].longitude
      ==> EventKeys(api, rows)[i].cell == EventKeys(api, rows)[j].cell
    ensures var d := Retained(rows);
      FloorHour(d[i].creationDate.value) == FloorHour(d[j].creationDate.value)
      ==> EventKeys(api, rows)[i].hour == EventKeys(api, rows)[j].hour
  {
  }

  // ---------------------------------------------------------------------------
  // groupby(["h3_cell", "ts_hour"]).size(): a panel sorted by key

  predicate StrictlySorted(p: seq<PanelRow>)
  {
    forall i, j :: 0 <= i < j < |p| ==> KeyLess(RowKey(p[i]), RowKey(p[j]))
  }

  predicate Positive(p: seq<PanelRow>)
  {
    forall i :: 0 <= i < |p| ==> p[i].calls >= 1
  }

  /** Every row's key lies strictly above `b`. */
  predicate AllAbove(p: seq<PanelRow>, b: Key)
  {
    forall i :: 0 <= i < |p| ==> KeyLess(b, RowKey(p[i]))
  }

  /** The calls of the row keyed `k`, or 0 when the panel has none. */
  function CallsOf(p: seq<PanelRow>, k: Key): nat
  {
    if p == [] then 0
    else if RowKey(p[0]) == k then p[0].calls
    else CallsOf(p[1..], k)
  }

  function SumCalls(p: seq<PanelRow>): nat
  {
    if p == [] then 0 else p[0].calls + SumCalls(p[1..])
  }

  /** Count one more event with key `k` into a sorted panel. */
  function Tally(p: seq<PanelRow>, k: Key): seq<PanelRow>
  {
    if p == [] then [PanelRow(k.cell, k.hour, 1)]
    else if RowKey(p[0]) == k then [p[0].(calls := p[0].calls + 1)] + p[1..]
    else if KeyLess(k, RowKey(p[0])) then [PanelRow(k.cell, k.hour, 1)] + p
    else [p[0]] + Tally(p[1..], k)
  }

  /** The grouped count of a key column, events taken in table order. */
  function GroupCount(keys: seq<Key>): seq<PanelRow>
  {
    if keys == [] then []
    else Tally(GroupCount(keys[..|keys| - 1]), keys[|keys| - 1])
  }

  lemma {:induction false} CallsOfAbsent(p: seq<PanelRow>, k: Key)
    requires forall i :: 0 <= i < |p| ==> RowKey(p[i]) != k
    ensures CallsOf(p, k) == 0
  {
    if p != [] {
      CallsOfAbsent(p[1..], k);
    }
  }

  lemma {:induction false} TallyAbove(p: seq<PanelRow>, k: Key, b: Key)
    requires AllAbove(p, b) && KeyLess(b, k)
    ensures AllAbove(Tally(p, k), b)
  {
    if p != [] && RowKey(p[0]) != k && !KeyLess(k, RowKey(p[0])) {
      TallyAbove(p[1..], k, b);
    }
  }

  lemma {:induction false} TallyCorrect(p: seq<PanelRow>, k: Key)
    requires StrictlySorted(p) && Positive(p)
    ensures StrictlySorted(Tally(p, k)) && Positive(Tally(p, k))
    ensures forall key :: CallsOf(Tally(p, k), key) == CallsOf(p, key) + (if key == k then 1 else 0)
    ensures SumCalls(Tally(p, k)) == SumCalls(p) + 1
  {
    var t := Tally(p, k);
    if p == [] {
    } else if RowKey(p[0]) == k {
      assert t[1..] == p[1..];
    } else if KeyLess(k, RowKey(p[0])) {
      assert t[1..] == p;
      forall key ensures CallsOf(t, key) == CallsOf(p, key) + (if key == k then 1 else 0) {
        if key == k {
          CallsOfAbsent(p, k);
        }
      }
    } else {
      var rest := Tally(p[1..], k);
      TallyCorrect(p[1..], k);
      assert t[1..] == rest;
      assert AllAbove(p[1..], RowKey(p[0]));
      TallyAbove(p[1..], k, RowKey(p[0]));
      forall key ensures CallsOf(t, key) == CallsOf(p, key) + (if key == k then 1 else 0) {
      }
    }
  }

  /** The grouped count is sorted by key, has no key twice, holds only rows
      with at least one call, counts each key exactly as often as it occurs,
      and its calls add up to the number of events (conservation). */
  lemma {:induction false} GroupCountCorrect(keys: seq<Key>)
    ensures StrictlySorted(GroupCount(keys)) && Positive(GroupCount(keys))
    ensures forall k :: CallsOf(GroupCount(keys), k) == multiset(keys)[k]
    ensures SumCalls(GroupCount(keys)) == |keys|
  {
    if keys != [] {
      var init, last := keys[..|keys| - 1], keys[|keys| - 1];
      assert keys == init + [last];
      GroupCountCorrect(init);
      TallyCorrect(GroupCount(init), last);
    }
  }

  /** In a sorted panel, the calls of a row are what CallsOf finds for its key. */
  lemma {:induction false} CallsOfRow(p: seq<PanelRow>, i: nat)
    requires StrictlySorted(p) && i < |p|
    ensures CallsOf(p, RowKey(p[i])) == p[i].calls
  {
    if i > 0 {
      assert KeyLess(RowKey(p[0]), RowKey(p[i]));
      assert p[1..][i - 1] == p[i];
      CallsOfRow(p[1..], i - 1);
    }
  }

  /** A key with calls has a row. */
  lemma {:induction false} CallsOfHasRow(p: seq<PanelRow>, k: Key) returns (i: nat)
    requires CallsOf(p, k) > 0
    ensures i < |p| && RowKey(p[i]) == k && p[i].calls == CallsOf(p, k)
  {
    if RowKey(p[0]) == k {
      i := 0;
    } else {
      var j := CallsOfHasRow(p[1..], k);
      i := j + 1;
    }
  }

  /** One row per distinct key of the events, each with that key's event count. */
  lemma PanelRowsAreCounts(keys: seq<Key>)
    ensures forall i :: 0 <= i < |GroupCount(keys)| ==>
      GroupCount(keys)[i].calls == multiset(keys)[RowKey(GroupCount(keys)[i])] >= 1
    ensures forall k :: k in keys <==>
      exists i :: 0 <= i < |GroupCount(keys)| && RowKey(GroupCount(keys)[i]) == k
  {
    var p := GroupCount(keys);
    GroupCountCorrect(keys);
    forall i | 0 <= i < |p| ensures p[i].calls == multiset(keys)[RowKey(p[i])] {
      CallsOfRow(p, i);
    }
    forall k | k in keys ensures exists i :: 0 <= i < |p| && RowKey(p[i]) == k {
      var i := CallsOfHasRow(p, k);
    }
  }

  /** Two sorted panels of positive counts that agree on every key's count
      are the same panel. */
  lemma {:induction false} SortedPanelUnique(p: seq<PanelRow>, q: seq<PanelRow>)
    requires StrictlySorted(p) && Positive(p) && StrictlySorted(q) && Positive(q)
    requires forall k :: CallsOf(p, k) == CallsOf(q, k)
    ensures p == q
  {
    assert q != [] ==> CallsOf(p, RowKey(q[0])) > 0;
    assert p != [] ==> CallsOf(q, RowKey(p[0])) > 0;
    if p != [] && q != [] {
      var a, b := RowKey(p[0]), RowKey(q[0]);
      var i := CallsOfHasRow(q, a);
      var j := CallsOfHasRow(p, b);
      assert i > 0 ==> KeyLess(b, a);
      assert j > 0 ==> KeyLess(a, b);
      assert a == b;
      assert CallsOf(p, a) == p[0].calls && CallsOf(q, b) == q[0].calls;
      forall k ensures CallsOf(p[1..], k) == CallsOf(q[1..], k) {
        if k == a {
          forall i | 0 <= i < |p[1..]| ensures RowKey(p[1..][i]) != k {
            assert p[1..][i] == p[i + 1];
            assert KeyLess(a, RowKey(p[i + 1]));
          }
          forall i | 0 <= i < |q[1..]| ensures RowKey(q[1..][i]) != k {
            assert q[1..][i] == q[i + 1];
            assert KeyLess(b, RowKey(q[i + 1]));
          }
          CallsOfAbsent(p[1..], k);
          CallsOfAbsent(q[1..], k);
        } else {
          assert CallsOf(p, k) == CallsOf(p[1..], k);
          assert CallsOf(q, k) == CallsOf(q[1..], k);
        }
      }
      assert StrictlySorted(p[1..]) && StrictlySorted(q[1..]);
      SortedPanelUnique(p[1..], q[1..]);
    }
  }

  /** Grouping is insensitive to the order of the events. */
  lemma GroupCountOrderIndependent(keys1: seq<Key>, keys2: seq<Key>)
    requires multiset(keys1) == multiset(keys2)
    ensures GroupCount(keys1) == GroupCount(keys2)
  {
    GroupCountCorrect(keys1);
    GroupCountCorrect(keys2);
    SortedPanelUnique(GroupCount(keys1), GroupCount(keys2));
  }

  // ---------------------------------------------------------------------------
  // Metadata, lines 58-63

  /** panel["h3_cell"].unique(): each value once, in order of first appearance. */
  function Distinct(s: seq<CellId>): (r: seq<CellId>)
    ensures forall i, j :: 0 <= i < j < |r| ==> r[i] != r[j]
    ensures forall c :: c in r <==> c in s
  {
    if s == [] then []
    else
      var rest := Distinct(s[..|s| - 1]);
      var c := s[|s| - 1];
      assert s == s[..|s| - 1] + [c];
      if c in rest then rest else rest + [c]
  }

  /** The position at which c first appears in s. */
  function FirstIndex(s: seq<CellId>, c: CellId): (k: nat)
    requires c in s
    ensures k < |s| && s[k] == c
    ensures forall j :: 0 <= j < k ==> s[j] != c
    decreases |s|
  {
    var p := s[..|s| - 1];
    assert s == p + [s[|s| - 1]];
    if c in p then FirstIndex(p, c) else |s| - 1
  }

  /** unique() lists the values in order of first appearance: of two listed
      values, the earlier one appears first in the input. */
  lemma {:induction false} DistinctInOrder(s: seq<CellId>)
    ensures forall i, j :: 0 <= i < j < |Distinct(s)| ==>
      FirstIndex(s, Distinct(s)[i]) < FirstIndex(s, Distinct(s)[j])
  {
    if s != [] {
      var p, c := s[..|s| - 1], s[|s| - 1];
      var rest := Distinct(p);
      DistinctInOrder(p);
      forall x | x in p ensures FirstIndex(s, x) == FirstIndex(p, x) {
      }
      if c !in rest {
        assert Distinct(s) == rest + [c];
        assert FirstIndex(s, c) == |s| - 1;
      }
    }
  }

  function PanelCells(p: seq<PanelRow>): (r: seq<CellId>)
    ensures |r| == |p| && forall i :: 0 <= i < |p| ==> r[i] == p[i].cell
  {
    seq(|p|, i requires 0 <= i < |p| => p[i].cell)
  }

  /** The metadata a list of cells gets: one row per entry, centroid from the
      spatial index. */
  function MetaRows(api: H3, cells: seq<CellId>): (m: seq<CellMeta>)
    ensures |m| == |cells|
    ensures forall i :: 0 <= i < |cells| ==>
      m[i].cell == cells[i] && (m[i].centerLat, m[i].centerLng) == api.centroidOf(cells[i])
  {
    seq(|cells|, i requires 0 <= i < |cells| =>
      CellMeta(cells[i], api.centroidOf(cells[i]).0, api.centroidOf(cells[i]).1))
  }

  /** Keys of a metadata table are unique. */
  predicate UniqueMetaKeys(m: seq<CellMeta>)
  {
    forall i, j :: 0 <= i < j < |m| ==> m[i].cell != m[j].cell
  }

  /** The cells a metadata table describes. */
  function MetaCells(m: seq<CellMeta>): set<CellId>
  {
    set j | 0 <= j < |m| :: m[j].cell
  }

  /** The metadata of a panel has exactly one row per distinct panel cell. */
  lemma MetadataOnePerCell(api: H3, p: seq<PanelRow>)
    ensures UniqueMetaKeys(MetaRows(api, Distinct(PanelCells(p))))
    ensures MetaCells(MetaRows(api, Distinct(PanelCells(p)))) == set i | 0 <= i < |p| :: p[i].cell
  {
    var cells := PanelCells(p);
    var d := Distinct(cells);
    var m := MetaRows(api, d);
    forall c | c in set i | 0 <= i < |p| :: p[i].cell
      ensures c in MetaCells(m)
    {
      var i :| 0 <= i < |p| && p[i].cell == c;
      assert cells[i] == c;
      assert c in d;
      var j :| 0 <= j < |d| && d[j] == c;
      assert m[j].cell == c;
    }
    forall c | c in MetaCells(m)
      ensures c in set i | 0 <= i < |p| :: p[i].cell
    {
      var j :| 0 <= j < |m| && m[j].cell == c;
      assert d[j] in cells;
      var i :| 0 <= i < |cells| && cells[i] == c;
      assert p[i].cell == c;
    }
  }

  /** The metadata reads only the cell column: counts and hours do not matter. */
  lemma MetadataIgnoresCounts(api: H3, p: seq<PanelRow>, q: seq<PanelRow>)
    requires |p| == |q| && forall i :: 0 <= i < |p| ==> p[i].cell == q[i].cell
    ensures MetaRows(api, Distinct(PanelCells(p))) == MetaRows(api, Distinct(PanelCells(q)))
  {
    assert PanelCells(p) == PanelCells(q);
  }

  /** The cell_rows loop of lines 59-62. */
  method BuildCellMeta(api: H3, cells: seq<CellId>) returns (rows: seq<CellMeta>)
    ensures rows == MetaRows(api, cells)
  {
    rows := [];
    for i := 0 to |cells|
      invariant rows == MetaRows(api, cells[..i])
    {
      var c := cells[i];
      var (lat, lng) := api.centroidOf(c);
      rows := rows + [CellMeta(c, lat, lng)];
      assert cells[..i + 1] == cells[..i] + [c];
    }
    assert cells[..|cells|] == cells;
  }

  // ---------------------------------------------------------------------------
  // GeoJSON export, lines 79-101

  /** Lines 87-88: the boundary in [lng, lat] order, closed by repeating the
      first position; None when the boundary is empty (coords[0] raises). */
  method ClosedRing(boundary: seq<LatLng>) returns (ring: Option<seq<LngLat>>)
    ensures ring.None? <==> boundary == []
    ensures ring.Some? ==>
      |ring.value| == |boundary| + 1 &&
      (forall i :: 0 <= i < |boundary| ==>
         ring.value[i] == LngLat(boundary[i].lng, boundary[i].lat)) &&
      ring.value[|boundary|] == ring.value[0]
  {
    var coords: seq<LngLat> := [];
    for i := 0 to |boundary|
      invariant |coords| == i
      invariant forall j :: 0 <= j < i ==> coords[j] == LngLat(boundary[j].lng, boundary[j].lat)
    {
      coords := coords + [LngLat(boundary[i].lng, boundary[i].lat)];
    }
    if |coords| == 0 {
      return None;
    }
    coords := coords + [coords[0]];
    ring := Some(coords);
  }

  /** The specification of a closed ring, for use in contracts. */
  predicate IsClosedRing(boundary: seq<LatLng>, ring: seq<LngLat>)
  {
    boundary != [] &&
    |ring| == |boundary| + 1 &&
    (forall i :: 0 <= i < |boundary| ==> ring[i] == LngLat(boundary[i].lng, boundary[i].lat)) &&
    ring[|boundary|] == ring[0]
  }

  /** Lines 79-101. Any exception inside the try block (an empty boundary, or
      the file write failing, which `written` stands for) skips the export and
      does not abort the run; no feature list is then produced at all. */
  method ExportGeoJson(api: H3, meta: seq<CellMeta>, written: bool) returns (geo: Option<seq<Feature>>)
    ensures geo.Some? <==> written && forall i :: 0 <= i < |meta| ==> api.boundaryOf(meta[i].cell) != []
    ensures geo.Some? ==> |geo.value| == |meta|
    ensures geo.Some? ==> forall i :: 0 <= i < |meta| ==>
      geo.value[i].cell == meta[i].cell && IsClosedRing(api.boundaryOf(meta[i].cell), geo.value[i].ring)
  {
    var features: seq<Feature> := [];
    for i := 0 to |meta|
      invariant |features| == i
      invariant forall j :: 0 <= j < i ==> api.boundaryOf(meta[j].cell) != []
      invariant forall j :: 0 <= j < i ==>
        features[j].cell == meta[j].cell && IsClosedRing(api.boundaryOf(meta[j].cell), features[j].ring)
    {
      var h := meta[i].cell;
      var coords := ClosedRing(api.boundaryOf(h));
      if coords.None? {
        return None;
      }
      features := features + [Feature(h, coords.value)];
    }
    if !written {
      return None;
    }
    geo := Some(features);
  }

  // ---------------------------------------------------------------------------
  // main

  /** The run of main. A missing `Creation Date` column, or missing
      `Latitude`/`Longitude` columns, raise before anything is aggregated. The
      cell assignment of lines 46-48 fails when no event is retained. The
      conservation assert of line 70 never fires, so no run ends in
      CountMismatch; a successful run's panel is the grouped count of the
      retained events' keys, its calls add up to the number of retained events
      (unparseable dates are not counted), and its metadata has one row per
      distinct panel cell. The GeoJSON features exist exactly when the file
      is written and no cell's boundary is empty, and then give each cell
      its closed ring. */
  method AggregateToGrid(api: H3, table: EventTable, geoWritten: bool)
    returns (res: Result<GridOutput, GridError>)
    ensures res.Failure? <==> !table.hasCreationDate || !table.hasCoordinates || |Retained(table.rows)| == 0
    ensures !table.hasCreationDate ==> res == Failure(MissingCreationDate)
    ensures table.hasCreationDate && !table.hasCoordinates ==> res == Failure(MissingCoordinates)
    ensures table.hasCreationDate && table.hasCoordinates && |Retained(table.rows)| == 0 ==>
      res == Failure(EmptyCellAssignment)
    ensures res != Failure(CountMismatch)
    ensures res.Success? ==>
      var out := res.value;
      && out.panel == GroupCount(EventKeys(api, table.rows))
      && SumCalls(out.panel) == |Retained(table.rows)|
      && out.meta == MetaRows(api, Distinct(PanelCells(out.panel)))
      && (out.geo.Some? <==> geoWritten && forall i :: 0 <= i < |out.meta| ==> api.boundaryOf(out.meta[i].cell) != [])
      && (out.geo.Some? ==> |out.geo.value| == |out.meta|)
      && (out.geo.Some? ==> forall i :: 0 <= i < |out.meta| ==>
            out.geo.value[i].cell == out.meta[i].cell &&
            IsClosedRing(api.boundaryOf(out.meta[i].cell), out.geo.value[i].ring))
  {
    if !table.hasCreationDate {
      return Failure(MissingCreationDate);
    }
    var df := Retained(table.rows);
    var hours := seq(|df|, i requires 0 <= i < |df| => FloorHour(df[i].creationDate.value));
    if !table.hasCoordinates {
      return Failure(MissingCoordinates);
    }
    if |df| == 0 {
      return Failure(EmptyCellAssignment);
    }
    var cells := seq(|df|, i requires 0 <= i < |df| => api.cellOf(df[i].latitude, df[i].longitude, H3Res));
    var keys := seq(|df|, i requires 0 <= i < |df| => Key(cells[i], hours[i]));
    assert keys == EventKeys(api, table.rows);
    var panel := GroupCount(keys);

    var uniqueCells := Distinct(PanelCells(panel));
    var cellRows := BuildCellMeta(api, uniqueCells);

    var totalEvents := |df|;
    var totalAgg := SumCalls(panel);
    GroupCountCorrect(keys);
    if totalEvents != totalAgg {
      return Failure(CountMismatch);
    }

    var geo := ExportGeoJson(api, cellRows, geoWritten);
    res := Success(GridOutput(panel, cellRows, geo));
  }
}
