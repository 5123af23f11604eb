/**
 * scripts/join_panel_meta.py: panel.merge(meta, on="h3_cell", how="left").
 */
module Join {
  import opened Common
  import Grid

  /** The metadata rows whose cell is `c`, in metadata order. */
  function Matches(meta: seq<CellMeta>, c: CellId): (m: seq<CellMeta>)
    ensures forall x :: x in m <==> x in meta && x.cell == c
  {
    if meta == [] then []
    else if meta[0].cell == c then [meta[0]] + Matches(meta[1..], c)
    else Matches(meta[1..], c)
  }

  /** The first metadata row whose cell is `c`, if there is one. */
  function Lookup(meta: seq<CellMeta>, c: CellId): (r: Option<CellMeta>)
    ensures r.Some? ==> r.value in meta && r.value.cell == c
    ensures r.None? <==> c !in Grid.MetaCells(meta)
  {
    if meta == [] then None
    else if meta[0].cell == c then Some(meta[0])
    else
      var r := Lookup(meta[1..], c);
      assert Grid.MetaCells(meta) == {meta[0].cell} + Grid.MetaCells(meta[1..]) by {
        forall x | x in Grid.MetaCells(meta) ensures x in {meta[0].cell} + Grid.MetaCells(meta[1..]) {
          var j :| 0 <= j < |meta| && meta[j].cell == x;
          if j > 0 {
            assert meta[1..][j - 1] == meta[j];
          }
        }
        forall x | x in Grid.MetaCells(meta[1..]) ensures x in Grid.MetaCells(meta) {
          var j :| 0 <= j < |meta[1..]| && meta[1..][j].cell == x;
          assert meta[j + 1] == meta[1..][j];
        }
      }
      r
  }

  /** A panel row with the metadata columns a matching row gives it, or nulls. */
  function Enrich(row: PanelRow, m: Option<CellMeta>): EnrichedRow
  {
    match m
    case None => EnrichedRow(row.cell, row.hour, row.calls, None, None)
    case Some(x) => EnrichedRow(row.cell, row.hour, row.calls, Some(x.centerLat), Some(x.centerLng))
  }

  /** The output rows one panel row gives: one per matching metadata row, or
      one with null metadata when none matches. */
  function MergeRow(row: PanelRow, meta: seq<CellMeta>): seq<EnrichedRow>
  {
    var m := Matches(meta, row.cell);
    if m == [] then [Enrich(row, None)]
    else seq(|m|, i requires 0 <= i < |m| => Enrich(row, Some(m[i])))
  }

  /** The left merge, panel rows taken in panel order. */
  function LeftMerge(panel: seq<PanelRow>, meta: seq<CellMeta>): seq<EnrichedRow>
  {
    if panel == [] then [] else MergeRow(panel[0], meta) + LeftMerge(panel[1..], meta)
  }

  function SumEnrichedCalls(rows: seq<EnrichedRow>): nat
  {
    if rows == [] then 0 else rows[0].calls + SumEnrichedCalls(rows[1..])
  }

  /** Restricted to unique keys, a cell has at most the one match Lookup finds. */
  lemma {:induction false} MatchesOfUnique(meta: seq<CellMeta>, c: CellId)
    requires Grid.UniqueMetaKeys(meta)
    ensures Matches(meta, c) == (match Lookup(meta, c) case None => [] case Some(x) => [x])
  {
    if meta != [] {
      assert Grid.UniqueMetaKeys(meta[1..]);
      MatchesOfUnique(meta[1..], c);
      if meta[0].cell == c {
        assert c !in Grid.MetaCells(meta[1..]) by {
          forall j | 0 <= j < |meta[1..]| ensures meta[1..][j].cell != c {
            assert meta[1..][j] == meta[j + 1];
          }
        }
      }
    }
  }

  /** Every panel row survives the merge: the output has at least as many
      rows, and row i of the panel shows up in it with its key and calls. */
  lemma {:induction false} LeftMergeKeepsRow(panel: seq<PanelRow>, meta: seq<CellMeta>, i: nat) returns (j: nat)
    requires i < |panel|
    ensures |LeftMerge(panel, meta)| >= |panel|
    ensures j < |LeftMerge(panel, meta)|
    ensures var o := LeftMerge(panel, meta)[j];
      o.cell == panel[i].cell && o.hour == panel[i].hour && o.calls == panel[i].calls
  {
    var head := MergeRow(panel[0], meta);
    assert |head| >= 1;
    if i == 0 {
      j := 0;
      if |panel| > 1 {
        var _ := LeftMergeKeepsRow(panel[1..], meta, 0);
      }
    } else {
      var k := LeftMergeKeepsRow(panel[1..], meta, i - 1);
      j := |head| + k;
    }
  }

  /** With unique metadata keys the merge is row for row: same length, the
      panel's order, every row's key and calls unchanged, and the centroid
      columns those of the matching metadata row, null when none matches. */
  lemma {:induction false} LeftMergeRowwise(panel: seq<PanelRow>, meta: seq<CellMeta>)
    requires Grid.UniqueMetaKeys(meta)
    ensures |LeftMerge(panel, meta)| == |panel|
    ensures forall i :: 0 <= i < |panel| ==>
      LeftMerge(panel, meta)[i] == Enrich(panel[i], Lookup(meta, panel[i].cell))
  {
    if panel != [] {
      MergeRowOfUnique(panel[0], meta);
      LeftMergeRowwise(panel[1..], meta);
      var out := LeftMerge(panel, meta);
      forall i | 0 < i < |panel|
        ensures out[i] == Enrich(panel[i], Lookup(meta, panel[i].cell))
      {
        assert out[i] == LeftMerge(panel[1..], meta)[i - 1];
        assert panel[1..][i - 1] == panel[i];
      }
    }
  }

  /** With unique metadata keys the merge keeps the total of calls. */
  lemma {:induction false} LeftMergeKeepsCalls(panel: seq<PanelRow>, meta: seq<CellMeta>)
    requires Grid.UniqueMetaKeys(meta)
    ensures SumEnrichedCalls(LeftMerge(panel, meta)) == Grid.SumCalls(panel)
  {
    if panel != [] {
      MergeRowOfUnique(panel[0], meta);
      LeftMergeKeepsCalls(panel[1..], meta);
      var head, rest := Enrich(panel[0], Lookup(meta, panel[0].cell)), LeftMerge(panel[1..], meta);
      assert LeftMerge(panel, meta) == [head] + rest;
      assert ([head] + rest)[1..] == rest;
    }
  }

  /** With unique metadata keys a panel row gives exactly one output row. */
  lemma MergeRowOfUnique(row: PanelRow, meta: seq<CellMeta>)
    requires Grid.UniqueMetaKeys(meta)
    ensures MergeRow(row, meta) == [Enrich(row, Lookup(meta, row.cell))]
  {
    MatchesOfUnique(meta, row.cell);
  }

  /** The metadata rows whose cell is in `cells`. */
  function Restrict(meta: seq<CellMeta>, cells: set<CellId>): (r: seq<CellMeta>)
    ensures forall x :: x in r <==> x in meta && x.cell in cells
  {
    if meta == [] then []
    else if meta[0].cell in cells then [meta[0]] + Restrict(meta[1..], cells)
    else Restrict(meta[1..], cells)
  }

  lemma {:induction false} MatchesOfRestrict(meta: seq<CellMeta>, cells: set<CellId>, c: CellId)
    requires c in cells
    ensures Matches(Restrict(meta, cells), c) == Matches(meta, c)
  {
    if meta != [] {
      MatchesOfRestrict(meta[1..], cells, c);
    }
  }

  /** Metadata rows for cells absent from the panel contribute nothing:
      dropping them leaves the merge as it was. */
  lemma {:induction false} UnusedMetaIgnored(panel: seq<PanelRow>, meta: seq<CellMeta>, cells: set<CellId>)
    requires forall i :: 0 <= i < |panel| ==> panel[i].cell in cells
    ensures LeftMerge(panel, Restrict(meta, cells)) == LeftMerge(panel, meta)
  {
    if panel != [] {
      MatchesOfRestrict(meta, cells, panel[0].cell);
      UnusedMetaIgnored(panel[1..], meta, cells);
    }
  }

  /** Joining a sorted panel with the metadata built from its own cells:
      every panel row matches exactly once, so the enriched panel has the
      panel's rows in the panel's order, each with its own cell's centroid. */
  lemma JoinWithOwnMeta(api: Grid.H3, panel: seq<PanelRow>)
    requires Grid.StrictlySorted(panel)
    ensures |LeftMerge(panel, Grid.MetaRows(api, Grid.Distinct(Grid.PanelCells(panel))))| == |panel|
    ensures SortedByKey(LeftMerge(panel, Grid.MetaRows(api, Grid.Distinct(Grid.PanelCells(panel)))))
    ensures forall i :: 0 <= i < |panel| ==>
      LeftMerge(panel, Grid.MetaRows(api, Grid.Distinct(Grid.PanelCells(panel))))[i] ==
      EnrichedRow(panel[i].cell, panel[i].hour, panel[i].calls,
        Some(api.centroidOf(panel[i].cell).0), Some(api.centroidOf(panel[i].cell).1))
  {
    var meta := Grid.MetaRows(api, Grid.Distinct(Grid.PanelCells(panel)));
    Grid.MetadataOnePerCell(api, panel);
    LeftMergeRowwise(panel, meta);
    var out := LeftMerge(panel, meta);
    forall i | 0 <= i < |panel|
      ensures out[i] == EnrichedRow(panel[i].cell, panel[i].hour, panel[i].calls,
        Some(api.centroidOf(panel[i].cell).0), Some(api.centroidOf(panel[i].cell).1))
    {
      assert panel[i].cell in Grid.MetaCells(meta);
      var x := Lookup(meta, panel[i].cell).value;
      var j :| 0 <= j < |meta| && meta[j] == x;
    }
    forall i, j | 0 <= i < j < |out| ensures KeyLess(EnrichedKey(out[i]), EnrichedKey(out[j])) {
      assert EnrichedKey(out[i]) == RowKey(panel[i]);
      assert EnrichedKey(out[j]) == RowKey(panel[j]);
    }
  }

  /** The aggregation stage's outputs joined: the enriched panel is sorted,
      row for row the panel with centroids, and its calls still add up to the
      number of retained events. */
  lemma PipelineJoin(api: Grid.H3, keys: seq<Key>)
    ensures var panel := Grid.GroupCount(keys);
      var out := LeftMerge(panel, Grid.MetaRows(api, Grid.Distinct(Grid.PanelCells(panel))));
      |out| == |panel| && SortedByKey(out) && SumEnrichedCalls(out) == |keys|
  {
    var panel := Grid.GroupCount(keys);
    Grid.GroupCountCorrect(keys);
    Grid.MetadataOnePerCell(api, panel);
    JoinWithOwnMeta(api, panel);
    LeftMergeKeepsCalls(panel, Grid.MetaRows(api, Grid.Distinct(Grid.PanelCells(panel))));
  }
}
