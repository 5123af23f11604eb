/**
 * Types shared by every stage of the event-to-panel pipeline.
 */
module Common {

  datatype Option<T> = None | Some(value: T)

  datatype Result<T, E> = Success(value: T) | Failure(error: E)

  /** An H3 cell index. H3 writes a cell as a fixed-width, 15-digit lower-case
      hexadecimal string, so ordering those strings is ordering these numbers. */
  type CellId = nat

  /** An absolute instant, in seconds since the Unix epoch. */
  type Instant = int

  /** The grouping key of the panel: (h3_cell, ts_hour). */
  datatype Key = Key(cell: CellId, hour: Instant)

  /** The lexicographic order on (h3_cell, ts_hour) that pandas sorts group keys by. */
  predicate KeyLess(a: Key, b: Key)
  {
    a.cell < b.cell || (a.cell == b.cell && a.hour < b.hour)
  }

  /** One row of the aggregated panel: (h3_cell, ts_hour, calls). */
  datatype PanelRow = PanelRow(cell: CellId, hour: Instant, calls: nat)

  function RowKey(r: PanelRow): Key
  {
    Key(r.cell, r.hour)
  }

  /** One row of the cell metadata table: (h3_cell, center_lat, center_lng). */
  datatype CellMeta = CellMeta(cell: CellId, centerLat: real, centerLng: real)

  /** One row of the enriched panel: a panel row and the metadata columns the
      left join attaches to it (null when no metadata row matches). */
  datatype EnrichedRow = EnrichedRow(
    cell: CellId, hour: Instant, calls: nat,
    centerLat: Option<real>, centerLng: Option<real>)

  function EnrichedKey(r: EnrichedRow): Key
  {
    Key(r.cell, r.hour)
  }

  /** Rows strictly ordered by (h3_cell, ts_hour): sorted, and no key twice. */
  predicate SortedByKey(rows: seq<EnrichedRow>)
  {
    forall i, j :: 0 <= i < j < |rows| ==> KeyLess(EnrichedKey(rows[i]), EnrichedKey(rows[j]))
  }

  /** A value in the flat model-ready table. `Root(v)` stands for the
      non-negative square root of `v`: the rolling standard deviation is kept
      as the variance it is the root of, so that no floating point is needed. */
  datatype Value = Null | Int(i: int) | Num(x: real) | Root(square: real)

  /** A table as pandas holds it after reading a parquet file: named columns in
      order, and rows of values in that order. */
  datatype Table = Table(columns: seq<string>, rows: seq<seq<Value>>)

  /** Every row has n fields. */
  predicate Width(rows: seq<seq<Value>>, n: nat)
  {
    forall i :: 0 <= i < |rows| ==> |rows[i]| == n
  }

  /** Every row has a field per column. */
  predicate WellFormed(t: Table)
  {
    Width(t.rows, |t.columns|)
  }

  /** The position of the first column called `name`, if any. */
  function IndexOf(columns: seq<string>, name: string): (r: Option<nat>)
    ensures r.Some? ==> r.value < |columns| && columns[r.value] == name
    ensures r.Some? ==> forall j :: 0 <= j < r.value ==> columns[j] != name
    ensures r.None? <==> name !in columns
  {
    if columns == [] then None
    else if columns[0] == name then Some(0)
    else match IndexOf(columns[1..], name)
      case None => None
      case Some(j) => Some(j + 1)
  }
}
