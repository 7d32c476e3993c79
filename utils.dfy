/**
 * The shared helpers of the pipeline: the rare-species filter, the
 * (cell x species) count pivot, merging model labels into the grid, and the
 * opacity bands of the map. The packaged module and the older Spanish one
 * compute the same things and share this model.
 */
module Utils {
  import opened Tables

  const NameColumn := "scientific_name"
  const GridIdColumn := "grid_id"

  // ---------------------------------------------------------------------------
  // Rare species
  // ---------------------------------------------------------------------------

  /**
   * `list_rare_species`: the names whose `value_counts()` count is at most
   * `threshold`. NaN names are not counted and so never listed.
   */
  function ListRareSpecies(f: Frame, threshold: int): (r: Result<seq<Value>>)
    ensures r.Err? <==> NameColumn !in f.columns
    ensures r.Err? ==> r.error == KeyError(Some(NameColumn))
    ensures r.Ok? ==> Distinct(r.value)
    ensures r.Ok? ==> forall v :: v in r.value <==>
      v != Missing && 0 < Occurrences(ColumnValues(f.rows, NameColumn), v) <= threshold
  {
    if NameColumn !in f.columns then Err(KeyError(Some(NameColumn)))
    else
      var names := ColumnValues(f.rows, NameColumn);
      Ok(Dedup(Filter(names, (v: Value) => v != Missing && Occurrences(names, v) <= threshold)))
  }

  /** The mask `~df['scientific_name'].isin(rare)`. */
  function NameNotIn(rare: seq<Value>): Row -> bool
  {
    (row: Row) => Cell(row, NameColumn) !in rare
  }

  /** A record outlives the rare filter: its name is NaN or occurs more than `threshold` times. */
  predicate Frequent(names: seq<Value>, threshold: int, row: Row)
  {
    Cell(row, NameColumn) == Missing || Occurrences(names, Cell(row, NameColumn)) > threshold
  }

  /** `remove_rare_species`: drop every record of a rare species, keeping the rest in order. */
  function RemoveRareSpecies(f: Frame, threshold: int): (r: Result<Frame>)
    ensures r.Err? <==> NameColumn !in f.columns
    ensures r.Err? ==> r.error == KeyError(Some(NameColumn))
    ensures r.Ok? ==> r.value.columns == f.columns && IsSubsequence(r.value.rows, f.rows)
    ensures r.Ok? ==> forall row :: row in r.value.rows <==>
      row in f.rows && Frequent(ColumnValues(f.rows, NameColumn), threshold, row)
    ensures r.Ok? ==> forall row :: Occurrences(r.value.rows, row) ==
                        if Frequent(ColumnValues(f.rows, NameColumn), threshold, row) then Occurrences(f.rows, row) else 0
    ensures r.Ok? && WellFormed(f) ==> WellFormed(r.value)
  {
    match ListRareSpecies(f, threshold)
    case Err(e) => Err(e)
    case Ok(rare) =>
      var kept := Filter(f.rows, NameNotIn(rare));
      FilterIsSubsequence(f.rows, NameNotIn(rare));
      KeptAsOftenAsFrequent(f, threshold, rare);
      assert forall i :: 0 <= i < |kept| ==> kept[i] in f.rows by {
        forall i | 0 <= i < |kept| ensures kept[i] in f.rows {
          assert kept[i] in kept;
        }
      }
      Ok(Frame(f.columns, kept))
  }

  /** The mask drops every record of a listed rare name and keeps every other record as often as it occurs. */
  lemma KeptAsOftenAsFrequent(f: Frame, threshold: int, rare: seq<Value>)
    requires forall v :: v in rare <==> v != Missing && 0 < Occurrences(ColumnValues(f.rows, NameColumn), v) <= threshold
    ensures forall row :: Occurrences(Filter(f.rows, NameNotIn(rare)), row) ==
                          if Frequent(ColumnValues(f.rows, NameColumn), threshold, row) then Occurrences(f.rows, row) else 0
  {
    var names := ColumnValues(f.rows, NameColumn);
    forall row ensures Occurrences(Filter(f.rows, NameNotIn(rare)), row) ==
                       if Frequent(names, threshold, row) then Occurrences(f.rows, row) else 0
    {
      if row in f.rows {
        var i :| 0 <= i < |f.rows| && f.rows[i] == row;
        assert names[i] == Cell(row, NameColumn);
        assert NameNotIn(rare)(row) == Frequent(names, threshold, row);
      }
    }
  }

  /** A filter that keeps every record of name `v` leaves the count of `v` unchanged. */
  lemma {:induction false} FilterKeepsWholeSpecies(rows: seq<Row>, p: Row -> bool, v: Value)
    requires forall row :: row in rows && Cell(row, NameColumn) == v ==> p(row)
    ensures Occurrences(ColumnValues(Filter(rows, p), NameColumn), v) == Occurrences(ColumnValues(rows, NameColumn), v)
  {
    if rows != [] {
      assert forall row :: row in rows[1..] ==> row in rows;
      FilterKeepsWholeSpecies(rows[1..], p, v);
      var rest := Filter(rows[1..], p);
      var all := ColumnValues(rows, NameColumn);
      assert all[1..] == ColumnValues(rows[1..], NameColumn);
      if p(rows[0]) {
        var kept := ColumnValues([rows[0]] + rest, NameColumn);
        assert ([rows[0]] + rest)[1..] == rest;
        assert kept[1..] == ColumnValues(rest, NameColumn);
      }
    }
  }

  /** Every species left by the filter keeps its full count, which is above the threshold. */
  lemma RemoveRareSpeciesSurvivorsFrequent(f: Frame, threshold: int, v: Value)
    requires RemoveRareSpecies(f, threshold).Ok?
    requires v != Missing && v in ColumnValues(RemoveRareSpecies(f, threshold).value.rows, NameColumn)
    ensures Occurrences(ColumnValues(RemoveRareSpecies(f, threshold).value.rows, NameColumn), v)
         == Occurrences(ColumnValues(f.rows, NameColumn), v) > threshold
  {
    var names := ColumnValues(f.rows, NameColumn);
    var rare := ListRareSpecies(f, threshold).value;
    var kept := RemoveRareSpecies(f, threshold).value.rows;
    assert kept == Filter(f.rows, NameNotIn(rare));
    var i :| 0 <= i < |kept| && ColumnValues(kept, NameColumn)[i] == v;
    assert kept[i] in kept;
    assert Occurrences(names, v) > threshold;
    assert v !in rare;
    FilterKeepsWholeSpecies(f.rows, NameNotIn(rare), v);
  }

  /** A second pass of the rare filter removes nothing. */
  lemma RemoveRareSpeciesIdempotent(f: Frame, threshold: int)
    requires RemoveRareSpecies(f, threshold).Ok?
    ensures RemoveRareSpecies(RemoveRareSpecies(f, threshold).value, threshold) == RemoveRareSpecies(f, threshold)
  {
    var g := RemoveRareSpecies(f, threshold).value;
    var rare := ListRareSpecies(g, threshold).value;
    forall row | row in g.rows ensures NameNotIn(rare)(row) {
      var v := Cell(row, NameColumn);
      if v != Missing {
        var i :| 0 <= i < |g.rows| && g.rows[i] == row;
        assert ColumnValues(g.rows, NameColumn)[i] == v;
        RemoveRareSpeciesSurvivorsFrequent(f, threshold, v);
      }
    }
    FilterAllKept(g.rows, NameNotIn(rare));
  }

  /** The threshold is inclusive: a species seen exactly `threshold` times is rare and removed. */
  lemma SpeciesAtThresholdRemoved(f: Frame, threshold: int, row: Row)
    requires NameColumn in f.columns && row in f.rows
    requires Cell(row, NameColumn) != Missing
    requires Occurrences(ColumnValues(f.rows, NameColumn), Cell(row, NameColumn)) == threshold
    ensures Cell(row, NameColumn) in ListRareSpecies(f, threshold).value
    ensures row !in RemoveRareSpecies(f, threshold).value.rows
  {
  }

  // ---------------------------------------------------------------------------
  // Counts per cell (pivot_table with aggfunc='size', fill_value=0)
  // ---------------------------------------------------------------------------

  /** A record the pivot counts: its grid id is present and its name is a string. */
  predicate Keyed(row: Row)
  {
    Cell(row, GridIdColumn) != Missing && Cell(row, NameColumn).Text?
  }

  /** The grid ids of the counted records, in order. */
  function KeyedCells(rows: seq<Row>): (cs: seq<Value>)
    ensures |cs| <= |rows|
    ensures forall g :: g in cs <==> exists i :: 0 <= i < |rows| && Keyed(rows[i]) && Cell(rows[i], GridIdColumn) == g
  {
    if rows == [] then []
    else
      assert forall i :: 1 <= i < |rows| ==> rows[1..][i - 1] == rows[i];
      (if Keyed(rows[0]) then [Cell(rows[0], GridIdColumn)] else []) + KeyedCells(rows[1..])
  }

  /** The names of the counted records in cell `g`, in order. */
  function CellNames(rows: seq<Row>, g: Value): (ns: seq<string>)
    ensures forall s :: s in ns <==>
      exists i :: 0 <= i < |rows| && Keyed(rows[i]) && Cell(rows[i], GridIdColumn) == g && Cell(rows[i], NameColumn) == Text(s)
  {
    if rows == [] then []
    else
      assert forall i :: 1 <= i < |rows| ==> rows[1..][i - 1] == rows[i];
      var here := Keyed(rows[0]) && Cell(rows[0], GridIdColumn) == g;
      (if here then [Cell(rows[0], NameColumn).s] else []) + CellNames(rows[1..], g)
  }

  /** The names of all counted records, in order. */
  function KeyedNames(rows: seq<Row>): (ns: seq<string>)
    ensures forall s :: s in ns <==> exists i :: 0 <= i < |rows| && Keyed(rows[i]) && Cell(rows[i], NameColumn) == Text(s)
  {
    if rows == [] then []
    else
      assert forall i :: 1 <= i < |rows| ==> rows[1..][i - 1] == rows[i];
      (if Keyed(rows[0]) then [Cell(rows[0], NameColumn).s] else []) + KeyedNames(rows[1..])
  }

  /** The records of cell `g` named `s`. */
  function PairIs(g: Value, s: string): Row -> bool
  {
    (row: Row) => Cell(row, GridIdColumn) == g && Cell(row, NameColumn) == Text(s)
  }

  /** The number of records of cell `g` named `s`. */
  function CountIn(rows: seq<Row>, g: Value, s: string): nat
  {
    |Filter(rows, PairIs(g, s))|
  }

  /** One row of the pivot: the cell's id and, per species, how many of its records carry that name. */
  function CountsRow(rows: seq<Row>, g: Value, species: seq<string>): (r: Row)
    ensures r.Keys == {GridIdColumn} + set s | s in species
    ensures r[GridIdColumn] == g
    ensures forall s :: s in species && s != GridIdColumn ==> r[s] == Number(Occurrences(CellNames(rows, g), s) as real)
  {
    (map s | s in species :: Number(Occurrences(CellNames(rows, g), s) as real))[GridIdColumn := g]
  }

  function CountsRows(rows: seq<Row>, cells: seq<Value>, species: seq<string>): (out: seq<Row>)
    ensures |out| == |cells|
    ensures forall i :: 0 <= i < |cells| ==> out[i] == CountsRow(rows, cells[i], species)
  {
    if cells == [] then [] else [CountsRow(rows, cells[0], species)] + CountsRows(rows, cells[1..], species)
  }

  /** Counting a cell's names equals counting the records of that (cell, name) pair. */
  lemma {:induction false} CellNamesCount(rows: seq<Row>, g: Value, s: string)
    requires g != Missing
    ensures Occurrences(CellNames(rows, g), s) == CountIn(rows, g, s)
  {
    if rows != [] {
      CellNamesCount(rows[1..], g, s);
      var here := Keyed(rows[0]) && Cell(rows[0], GridIdColumn) == g;
      var rest := CellNames(rows[1..], g);
      var p := PairIs(g, s);
      assert Filter(rows, p) == if p(rows[0]) then [rows[0]] + Filter(rows[1..], p) else Filter(rows[1..], p);
      if here {
        var name := Cell(rows[0], NameColumn).s;
        assert CellNames(rows, g) == [name] + rest;
        assert ([name] + rest)[1..] == rest;
        assert p(rows[0]) <==> name == s;
      } else {
        assert CellNames(rows, g) == rest;
        assert !p(rows[0]);
      }
    }
  }

  /** A cell's number of counted names is the number of times its id occurs among the counted records. */
  lemma {:induction false} CellNamesSize(rows: seq<Row>, g: Value)
    ensures |CellNames(rows, g)| == Occurrences(KeyedCells(rows), g)
  {
    if rows != [] {
      CellNamesSize(rows[1..], g);
      var rest := KeyedCells(rows[1..]);
      var names := CellNames(rows[1..], g);
      if Keyed(rows[0]) {
        var id := Cell(rows[0], GridIdColumn);
        assert KeyedCells(rows) == [id] + rest;
        assert ([id] + rest)[1..] == rest;
        assert |CellNames(rows, g)| == (if id == g then 1 else 0) + |names|;
      } else {
        assert KeyedCells(rows) == rest;
        assert CellNames(rows, g) == names;
      }
    }
  }

  /** There is one counted id per counted record. */
  lemma {:induction false} KeyedCellsSize(rows: seq<Row>)
    ensures |KeyedCells(rows)| == |Filter(rows, Keyed)|
  {
    if rows != [] {
      KeyedCellsSize(rows[1..]);
    }
  }

  /**
   * `make_counts_dataframe`: one row per grid id and one column per species
   * (after the `grid_id` column), each holding the number of records of that
   * pair, 0 when there are none. Records with a NaN id or name are not
   * counted. An absent key column raises `KeyError`; a species literally named
   * `grid_id` makes `reset_index` raise `ValueError`.
   */
  function MakeCountsDataFrame(f: Frame): (r: Result<Frame>)
    ensures GridIdColumn !in f.columns ==> r == Err(KeyError(Some(GridIdColumn)))
    ensures GridIdColumn in f.columns && NameColumn !in f.columns ==> r == Err(KeyError(Some(NameColumn)))
    ensures GridIdColumn in f.columns && NameColumn in f.columns ==>
      (r.Err? <==> exists i :: 0 <= i < |f.rows| && Keyed(f.rows[i]) && Cell(f.rows[i], NameColumn) == Text(GridIdColumn))
    ensures r.Err? && GridIdColumn in f.columns && NameColumn in f.columns ==> r.error == ValueError(GridIdColumn)
    ensures r.Ok? ==> WellFormed(r.value) && r.value.columns == [GridIdColumn] + Dedup(KeyedNames(f.rows))
    ensures r.Ok? ==> forall s :: s in r.value.columns[1..] <==>
      exists i :: 0 <= i < |f.rows| && Keyed(f.rows[i]) && Cell(f.rows[i], NameColumn) == Text(s)
    ensures r.Ok? ==> UniqueKey(r.value.rows, GridIdColumn)
    ensures r.Ok? ==> forall g :: g in ColumnValues(r.value.rows, GridIdColumn) <==>
      exists i :: 0 <= i < |f.rows| && Keyed(f.rows[i]) && Cell(f.rows[i], GridIdColumn) == g
    ensures r.Ok? ==> forall i, s :: 0 <= i < |r.value.rows| && s in r.value.columns[1..] ==>
      r.value.rows[i][s] == Number(CountIn(f.rows, r.value.rows[i][GridIdColumn], s) as real)
  {
    if GridIdColumn !in f.columns then Err(KeyError(Some(GridIdColumn)))
    else if NameColumn !in f.columns then Err(KeyError(Some(NameColumn)))
    else
      var species := Dedup(KeyedNames(f.rows));
      var cells := Dedup(KeyedCells(f.rows));
      if GridIdColumn in species then Err(ValueError(GridIdColumn))
      else
        var rows := CountsRows(f.rows, cells, species);
        var cols := [GridIdColumn] + species;
        assert cols[1..] == species;
        CountsRowsFacts(f.rows, cells, species);
        Ok(Frame(cols, rows))
  }

  /** The pivot's rows: keyed by the distinct counted ids, each holding the pair counts. */
  lemma CountsRowsFacts(rows: seq<Row>, cells: seq<Value>, species: seq<string>)
    requires Distinct(species) && GridIdColumn !in species
    requires cells == Dedup(KeyedCells(rows))
    ensures var out := CountsRows(rows, cells, species);
      && WellFormed(Frame([GridIdColumn] + species, out))
      && UniqueKey(out, GridIdColumn)
      && ColumnValues(out, GridIdColumn) == cells
      && forall i, s :: 0 <= i < |out| && s in species ==> out[i][s] == Number(CountIn(rows, out[i][GridIdColumn], s) as real)
  {
    var out := CountsRows(rows, cells, species);
    CountsColumnsDistinct(species);
    CountsRowsKeyed(rows, cells, species);
    CountsRowsIds(rows, cells, species);
    forall i, s | 0 <= i < |out| && s in species
      ensures out[i][s] == Number(CountIn(rows, out[i][GridIdColumn], s) as real)
    {
      assert cells[i] in cells;
      CellNamesCount(rows, cells[i], s);
    }
  }

  lemma CountsColumnsDistinct(species: seq<string>)
    requires Distinct(species) && GridIdColumn !in species
    ensures Distinct([GridIdColumn] + species)
  {
    var cols := [GridIdColumn] + species;
    forall i, j | 0 <= i < j < |cols| ensures cols[i] != cols[j] {
      if i > 0 {
        assert cols[i] == species[i - 1] && cols[j] == species[j - 1];
      } else {
        assert cols[j] in species;
      }
    }
  }

  lemma CountsRowsKeyed(rows: seq<Row>, cells: seq<Value>, species: seq<string>)
    ensures var out := CountsRows(rows, cells, species);
      forall i :: 0 <= i < |out| ==> out[i].Keys == set c | c in [GridIdColumn] + species
  {
    var out := CountsRows(rows, cells, species);
    var keys := set c | c in [GridIdColumn] + species;
    assert keys == {GridIdColumn} + set s | s in species;
    forall i | 0 <= i < |out| ensures out[i].Keys == keys {
      assert out[i] == CountsRow(rows, cells[i], species);
    }
  }

  lemma CountsRowsIds(rows: seq<Row>, cells: seq<Value>, species: seq<string>)
    requires Distinct(cells)
    ensures var out := CountsRows(rows, cells, species);
      UniqueKey(out, GridIdColumn) && ColumnValues(out, GridIdColumn) == cells
  {
    var out := CountsRows(rows, cells, species);
    var ids := ColumnValues(out, GridIdColumn);
    forall i | 0 <= i < |out| ensures ids[i] == cells[i] {
      assert out[i] == CountsRow(rows, cells[i], species);
    }
    assert ids == cells;
  }

  /** The species columns of a row summed, as `sum(axis=1)` does on counts. */
  function RowSum(row: Row, cols: seq<string>): real
  {
    if cols == [] then 0.0
    else (match Cell(row, cols[0]) case Number(x) => x case _ => 0.0) + RowSum(row, cols[1..])
  }

  /** The species columns of every row summed. */
  function TotalSum(rows: seq<Row>, cols: seq<string>): real
  {
    if rows == [] then 0.0 else RowSum(rows[0], cols) + TotalSum(rows[1..], cols)
  }

  lemma {:induction false} RowSumOfCounts(row: Row, species: seq<string>, names: seq<string>)
    requires forall s :: s in species ==> Cell(row, s) == Number(Occurrences(names, s) as real)
    ensures RowSum(row, species) == SumOfCounts(names, species) as real
  {
    if species != [] {
      assert forall s :: s in species[1..] ==> s in species;
      RowSumOfCounts(row, species[1..], names);
    }
  }

  /** A pivot row sums to the number of counted records in its cell. */
  lemma CountsRowSum(rows: seq<Row>, g: Value, species: seq<string>)
    requires Distinct(species) && GridIdColumn !in species
    requires forall s :: s in KeyedNames(rows) ==> s in species
    ensures RowSum(CountsRow(rows, g, species), species) == Occurrences(KeyedCells(rows), g) as real
  {
    var names := CellNames(rows, g);
    RowSumOfCounts(CountsRow(rows, g, species), species, names);
    SumOfCountsCoversAll(names, species);
    CellNamesSize(rows, g);
  }

  lemma {:induction false} TotalOfCountsRows(rows: seq<Row>, cells: seq<Value>, species: seq<string>)
    requires Distinct(species) && GridIdColumn !in species
    requires forall s :: s in KeyedNames(rows) ==> s in species
    ensures TotalSum(CountsRows(rows, cells, species), species) == SumOfCounts(KeyedCells(rows), cells) as real
  {
    if cells != [] {
      CountsRowSum(rows, cells[0], species);
      TotalOfCountsRows(rows, cells[1..], species);
      assert ([CountsRow(rows, cells[0], species)] + CountsRows(rows, cells[1..], species))[1..]
        == CountsRows(rows, cells[1..], species);
    }
  }

  /**
   * Each pivot row sums to the number of counted records of its cell, and the
   * whole table sums to the number of records with both an id and a name.
   */
  lemma MakeCountsDataFrameTotals(f: Frame)
    requires MakeCountsDataFrame(f).Ok?
    ensures var out := MakeCountsDataFrame(f).value;
      forall i :: 0 <= i < |out.rows| ==>
        RowSum(out.rows[i], out.columns[1..]) == Occurrences(KeyedCells(f.rows), out.rows[i][GridIdColumn]) as real
    ensures var out := MakeCountsDataFrame(f).value;
      TotalSum(out.rows, out.columns[1..]) == |Filter(f.rows, Keyed)| as real
  {
    var species := Dedup(KeyedNames(f.rows));
    var cells := Dedup(KeyedCells(f.rows));
    var out := MakeCountsDataFrame(f).value;
    assert out.columns[1..] == species;
    assert out.rows == CountsRows(f.rows, cells, species);
    forall i | 0 <= i < |out.rows|
      ensures RowSum(out.rows[i], species) == Occurrences(KeyedCells(f.rows), out.rows[i][GridIdColumn]) as real
    {
      CountsRowSum(f.rows, cells[i], species);
    }
    TotalOfCountsRows(f.rows, cells, species);
    SumOfCountsCoversAll(KeyedCells(f.rows), cells);
    KeyedCellsSize(f.rows);
  }

  // ---------------------------------------------------------------------------
  // Model labels on the grid
  // ---------------------------------------------------------------------------

  /**
   * `pd.DataFrame({'grid_id': cell_ids, name: labels})`. When `name` is
   * `grid_id` the later entry of the dict wins and the frame holds the labels
   * alone; otherwise lists of different lengths raise `ValueError`.
   */
  function ModelFrame(cellIds: seq<Value>, labels: seq<Value>, name: string): (r: Result<Frame>)
    ensures r.Err? <==> name != GridIdColumn && |cellIds| != |labels|
    ensures r.Err? ==> r.error == LengthMismatch
    ensures r.Ok? && name != GridIdColumn ==> (r.value.columns == [GridIdColumn, name] && |r.value.rows| == |cellIds|
      && forall k :: 0 <= k < |cellIds| ==> Cell(r.value.rows[k], GridIdColumn) == cellIds[k] && Cell(r.value.rows[k], name) == labels[k])
    ensures r.Ok? ==> WellFormed(r.value)
    ensures r.Ok? && name != GridIdColumn && Distinct(cellIds) ==> UniqueKey(r.value.rows, GridIdColumn)
    ensures name == GridIdColumn ==> (r.Ok? && r.value.columns == [GridIdColumn] && |r.value.rows| == |labels|
      && forall k :: 0 <= k < |labels| ==> Cell(r.value.rows[k], GridIdColumn) == labels[k])
  {
    if name == GridIdColumn then
      Ok(Frame([GridIdColumn], seq(|labels|, k requires 0 <= k < |labels| => map[GridIdColumn := labels[k]])))
    else if |cellIds| != |labels| then Err(LengthMismatch)
    else
      Ok(Frame([GridIdColumn, name], seq(|cellIds|, k requires 0 <= k < |cellIds| => map[GridIdColumn := cellIds[k], name := labels[k]])))
  }

  /** The label paired with id `g` at its first position in `cellIds`, or NaN when `g` is not listed. */
  function LabelFor(cellIds: seq<Value>, labels: seq<Value>, g: Value): (v: Value)
    requires |cellIds| == |labels|
    ensures (forall k :: 0 <= k < |cellIds| ==> cellIds[k] != g) ==> v == Missing
    ensures forall k :: 0 <= k < |cellIds| && cellIds[k] == g && (forall m :: 0 <= m < k ==> cellIds[m] != g) ==> v == labels[k]
  {
    if cellIds == [] then Missing
    else if cellIds[0] == g then labels[0]
    else
      var v := LabelFor(cellIds[1..], labels[1..], g);
      assert forall k :: 1 <= k < |cellIds| ==> cellIds[1..][k - 1] == cellIds[k] && labels[1..][k - 1] == labels[k];
      v
  }

  /** `merge_model_results`: left-merge the labels into the grid on `grid_id`. */
  function MergeModelResults(grid: Frame, cellIds: seq<Value>, labels: seq<Value>, name: string): (r: Result<Frame>)
    ensures name != GridIdColumn && |cellIds| != |labels| ==> r == Err(LengthMismatch)
    ensures (name == GridIdColumn || |cellIds| == |labels|) && GridIdColumn !in grid.columns ==>
      r == Err(KeyError(Some(GridIdColumn)))
    ensures r.Ok? ==> WellFormed(r.value) && |r.value.rows| >= |grid.rows|
  {
    match ModelFrame(cellIds, labels, name)
    case Err(e) => Err(e)
    case Ok(data) => LeftMerge(grid, data, GridIdColumn)
  }

  /**
   * With distinct ids and a new column name, the merge keeps the grid row for
   * row, leaves its columns unchanged and appends the label paired with each
   * row's id, NaN for a cell without one.
   */
  lemma MergeModelResultsKeepsGrid(grid: Frame, cellIds: seq<Value>, labels: seq<Value>, name: string)
    requires WellFormed(grid) && GridIdColumn in grid.columns
    requires name != GridIdColumn && name !in grid.columns
    requires |cellIds| == |labels| && Distinct(cellIds)
    ensures MergeModelResults(grid, cellIds, labels, name).Ok?
    ensures var out := MergeModelResults(grid, cellIds, labels, name).value;
      && out.columns == grid.columns + [name]
      && |out.rows| == |grid.rows|
      && (forall i, c :: 0 <= i < |grid.rows| && c in grid.columns ==> Cell(out.rows[i], c) == Cell(grid.rows[i], c))
      && (forall i :: 0 <= i < |grid.rows| ==> Cell(out.rows[i], name) == LabelFor(cellIds, labels, Cell(grid.rows[i], GridIdColumn)))
  {
    var data := ModelFrame(cellIds, labels, name).value;
    ModelMergeIsOk(grid, data, name);
    var out := LeftMerge(grid, data, GridIdColumn).value;
    assert MergeModelResults(grid, cellIds, labels, name) == Ok(out);
    LeftMergeLength(grid, data, GridIdColumn);
    forall i, c | 0 <= i < |grid.rows| && c in grid.columns
      ensures Cell(out.rows[i], c) == Cell(grid.rows[i], c)
    {
      LeftMergeLeftCell(grid, data, GridIdColumn, i, c);
    }
    forall i | 0 <= i < |grid.rows|
      ensures Cell(out.rows[i], name) == LabelFor(cellIds, labels, Cell(grid.rows[i], GridIdColumn))
    {
      LeftMergeRightCell(grid, data, GridIdColumn, i, name);
      ModelLabelLookup(cellIds, labels, name, grid.rows[i]);
    }
  }

  /** Merging a two-column label frame whose label column is new appends just that column. */
  lemma ModelMergeIsOk(grid: Frame, data: Frame, name: string)
    requires WellFormed(grid) && GridIdColumn in grid.columns
    requires name != GridIdColumn && name !in grid.columns
    requires data.columns == [GridIdColumn, name]
    ensures LeftMerge(grid, data, GridIdColumn).Ok?
    ensures LeftMerge(grid, data, GridIdColumn).value.columns == grid.columns + [name]
    ensures Overlap(grid.columns, data.columns, GridIdColumn) == {}
  {
    assert Overlap(grid.columns, data.columns, GridIdColumn) == {};
    assert OtherColumns(data.columns, GridIdColumn) == [name] by {
      assert data.columns[1..] == [name];
      OtherColumnsWithoutKey([name], GridIdColumn);
    }
    PlanWithoutOverlap(grid.columns, data.columns, GridIdColumn);
    var cols := Labels(MergePlan(grid.columns, data.columns, GridIdColumn));
    assert cols == grid.columns + [name];
    assert Distinct(cols) by {
      forall i, j | 0 <= i < j < |cols| ensures cols[i] != cols[j] {
        if j == |grid.columns| {
          assert cols[i] in grid.columns;
        }
      }
    }
  }

  /** The merge's lookup of a grid row's id in the label frame yields the label `LabelFor` pairs with it. */
  lemma ModelLabelLookup(cellIds: seq<Value>, labels: seq<Value>, name: string, l: Row)
    requires name != GridIdColumn && |cellIds| == |labels| && Distinct(cellIds)
    ensures var data := ModelFrame(cellIds, labels, name).value;
      Take(FromRight(name), l, Lookup(data.rows, GridIdColumn, Cell(l, GridIdColumn)))
        == LabelFor(cellIds, labels, Cell(l, GridIdColumn))
  {
    var data := ModelFrame(cellIds, labels, name).value;
    var g := Cell(l, GridIdColumn);
    var m := Lookup(data.rows, GridIdColumn, g);
    if m.Some? {
      var k :| 0 <= k < |data.rows| && data.rows[k] == m.value;
      assert cellIds[k] == g;
      assert forall n :: 0 <= n < |cellIds| && n != k ==> cellIds[n] != g;
    } else {
      assert forall k :: 0 <= k < |cellIds| ==> cellIds[k] != g by {
        forall k | 0 <= k < |cellIds| ensures cellIds[k] != g {
          assert data.rows[k] in data.rows;
        }
      }
    }
  }

  // ---------------------------------------------------------------------------
  // Opacity bands
  // ---------------------------------------------------------------------------

  /**
   * `categorise_opacity`: 0.2 below 0.01, 0.4 below 0.1, 0.8 below 0.66 and
   * 0.98 otherwise. A NaN score fails every comparison and lands in the top
   * band; a string cannot be compared with a float and raises `TypeError`.
   */
  function CategoriseOpacity(score: Value): (r: Result<real>)
    ensures r.Err? <==> score.Text?
    ensures r.Err? ==> r.error == TypeError
    ensures r == Ok(0.2) <==> LessThan(score, 0.01)
    ensures r == Ok(0.4) <==> !LessThan(score, 0.01) && LessThan(score, 0.1)
    ensures r == Ok(0.8) <==> !LessThan(score, 0.1) && LessThan(score, 0.66)
    ensures r == Ok(0.98) <==> !score.Text? && !LessThan(score, 0.66)
    ensures score == Missing ==> r == Ok(0.98)
  {
    if score.Text? then Err(TypeError)
    else if LessThan(score, 0.01) then Ok(0.2)
    else if LessThan(score, 0.1) then Ok(0.4)
    else if LessThan(score, 0.66) then Ok(0.8)
    else Ok(0.98)
  }

  /** The order of the extended reals on numeric cells. */
  predicate NumericLe(a: Value, b: Value)
  {
    match (a, b)
    case (Number(x), Number(y)) => x <= y
    case (Infinite(n), _) => n && (b.Number? || b.Infinite?)
    case (Number(_), Infinite(n)) => !n
    case _ => false
  }

  /** A larger score never gets a lower opacity. */
  lemma CategoriseOpacityMonotone(a: Value, b: Value)
    requires NumericLe(a, b)
    ensures CategoriseOpacity(a).value <= CategoriseOpacity(b).value
  {
  }
}
