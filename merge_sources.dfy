/**
 * The merge stage: concatenate the cleaned eBird and iNaturalist tables,
 * assign each observation its grid cell, drop rare species and malformed
 * names, and count species per cell.
 */
module MergeSources {
  import opened Tables
  import opened Text
  import opened Utils
  import Association

  /** `main`'s default `rare_threshold`. */
  const DefaultRareThreshold := 5

  // ---------------------------------------------------------------------------
  // Loading and concatenation
  // ---------------------------------------------------------------------------

  /**
   * `pd.concat([a, b], ignore_index=True)`: the columns of `a` followed by the
   * new ones of `b`; the rows of `a` and then those of `b`, NaN wherever a
   * frame lacks a column.
   */
  function Concat(a: Frame, b: Frame): (r: Frame)
    ensures forall c :: c in r.columns <==> c in a.columns || c in b.columns
    ensures |a.columns| <= |r.columns| && r.columns[..|a.columns|] == a.columns
    ensures |r.rows| == |a.rows| + |b.rows|
    ensures forall i, c :: 0 <= i < |a.rows| && c in r.columns ==> Cell(r.rows[i], c) == Cell(a.rows[i], c)
    ensures forall i, c :: 0 <= i < |b.rows| && c in r.columns ==> Cell(r.rows[|a.rows| + i], c) == Cell(b.rows[i], c)
    ensures Distinct(a.columns) && Distinct(b.columns) ==> WellFormed(r)
  {
    var cols := ConcatColumns(a.columns, b.columns);
    var top := RestrictRows(a.rows, cols);
    var bottom := RestrictRows(b.rows, cols);
    var rows := top + bottom;
    assert forall i :: 0 <= i < |a.rows| ==> rows[i] == top[i];
    assert forall i :: 0 <= i < |b.rows| ==> rows[|a.rows| + i] == bottom[i];
    Frame(cols, rows)
  }

  /** Every row cut to `cols`, NaN where a row lacks one. */
  function RestrictRows(rows: seq<Row>, cols: seq<string>): (out: seq<Row>)
    ensures |out| == |rows|
    ensures forall i :: 0 <= i < |rows| ==> out[i] == RestrictRow(rows[i], cols)
  {
    seq(|rows|, i requires 0 <= i < |rows| => RestrictRow(rows[i], cols))
  }

  /** The concatenated columns: those of `a`, then those of `b` that `a` lacks; distinct when both are. */
  function ConcatColumns(a: seq<string>, b: seq<string>): (cols: seq<string>)
    ensures forall c :: c in cols <==> c in a || c in b
    ensures |a| <= |cols| && cols[..|a|] == a
    ensures Distinct(a) && Distinct(b) ==> Distinct(cols)
  {
    var added := Filter(b, (c: string) => c !in a);
    var cols := a + added;
    assert Distinct(a) && Distinct(b) ==> Distinct(cols) by {
      if Distinct(a) && Distinct(b) {
        FilterDistinct(b, (c: string) => c !in a);
        forall i, j | 0 <= i < j < |cols| ensures cols[i] != cols[j] {
          if i < |a| && j >= |a| {
            assert cols[j] in added;
          } else if i >= |a| {
            assert cols[i] == added[i - |a|] && cols[j] == added[j - |a|];
          }
        }
      }
    }
    assert cols[..|a|] == a;
    cols
  }

  /**
   * `load_and_merge`: stop with exit status 1 when either file is missing,
   * otherwise read both (`readCsv`) and concatenate them, eBird first.
   */
  function LoadAndMerge(ebirdCsv: string, inatCsv: string, fileExists: string -> bool, readCsv: string -> Frame): (r: Result<Frame>)
    ensures r.Err? <==> !fileExists(ebirdCsv) || !fileExists(inatCsv)
    ensures r.Err? ==> r.error == SystemExit(1)
    ensures r.Ok? ==> |r.value.rows| == |readCsv(ebirdCsv).rows| + |readCsv(inatCsv).rows|
    ensures r.Ok? ==> forall c :: c in r.value.columns <==> c in readCsv(ebirdCsv).columns || c in readCsv(inatCsv).columns
    ensures r.Ok? ==> forall i, c :: 0 <= i < |readCsv(ebirdCsv).rows| && c in r.value.columns ==>
      Cell(r.value.rows[i], c) == Cell(readCsv(ebirdCsv).rows[i], c)
    ensures r.Ok? ==> forall i, c :: 0 <= i < |readCsv(inatCsv).rows| && c in r.value.columns ==>
      Cell(r.value.rows[|readCsv(ebirdCsv).rows| + i], c) == Cell(readCsv(inatCsv).rows[i], c)
  {
    if !fileExists(ebirdCsv) || !fileExists(inatCsv) then Err(SystemExit(1))
    else Ok(Concat(readCsv(ebirdCsv), readCsv(inatCsv)))
  }

  // ---------------------------------------------------------------------------
  // Rare species and name sanitation
  // ---------------------------------------------------------------------------

  /** `Series.str.strip()` on one cell: strings are stripped, anything else becomes NaN. */
  function StripName(v: Value): (r: Value)
    ensures v.Text? ==> r == Text(Strip(v.s))
    ensures !v.Text? ==> r == Missing
  {
    if v.Text? then Text(Strip(v.s)) else Missing
  }

  /** The name column of every row replaced by its stripped value. */
  function StripNames(rows: seq<Row>): (out: seq<Row>)
    ensures |out| == |rows|
    ensures forall i :: 0 <= i < |rows| ==> out[i] == rows[i][NameColumn := StripName(Cell(rows[i], NameColumn))]
  {
    seq(|rows|, i requires 0 <= i < |rows| => rows[i][NameColumn := StripName(Cell(rows[i], NameColumn))])
  }

  /** The mask `~name.str.contains(r'[\\/]')`. */
  function NoSlash(row: Row): bool
  {
    match Cell(row, NameColumn)
    case Text(s) => !HasSlash(s)
    case _ => true
  }

  /** The mask `~name.str.contains(r'(?i)\b(?:sp\.|spp\.)')`. */
  function NoRankMarker(row: Row): bool
  {
    match Cell(row, NameColumn)
    case Text(s) => !HasRankMarker(s)
    case _ => true
  }

  /** A name the sanitation keeps: already stripped, with no slash and no rank marker. */
  predicate CleanName(v: Value)
  {
    v.Text? && Strip(v.s) == v.s && !HasSlash(v.s) && !HasRankMarker(v.s)
  }

  /**
   * `filter_and_clean`: remove rare species on the names as read, strip the
   * names, then drop names with a slash or a backslash and names with an
   * `sp.`/`spp.` marker. A name that is not a string becomes NaN when
   * stripped, and inverting a mask holding NaN raises `TypeError`.
   */
  function FilterAndClean(df: Frame, threshold: int): (r: Result<Frame>)
    ensures NameColumn !in df.columns ==> r == Err(KeyError(Some(NameColumn)))
    ensures NameColumn in df.columns ==> (r.Err? <==>
      exists i :: 0 <= i < |df.rows| && Frequent(ColumnValues(df.rows, NameColumn), threshold, df.rows[i])
        && !Cell(df.rows[i], NameColumn).Text?)
    ensures r.Err? && NameColumn in df.columns ==> r.error == TypeError
    ensures r.Ok? ==> r.value.columns == df.columns
    ensures r.Ok? ==> forall row :: row in r.value.rows ==> CleanName(Cell(row, NameColumn))
    ensures r.Ok? ==> forall row :: row in r.value.rows <==>
      exists i :: (0 <= i < |df.rows| && Frequent(ColumnValues(df.rows, NameColumn), threshold, df.rows[i])
        && row == df.rows[i][NameColumn := StripName(Cell(df.rows[i], NameColumn))]
        && NoSlash(row) && NoRankMarker(row))
    ensures r.Ok? ==> IsSubsequence(r.value.rows, StripNames(RemoveRareSpecies(df, threshold).value.rows))
    ensures r.Ok? ==> forall row :: Occurrences(r.value.rows, row) ==
                          if NoSlash(row) && NoRankMarker(row) then Occurrences(StripNames(RemoveRareSpecies(df, threshold).value.rows), row) else 0
    ensures r.Ok? && WellFormed(df) ==> WellFormed(r.value)
  {
    match RemoveRareSpecies(df, threshold)
    case Err(e) => Err(e)
    case Ok(noRare) =>
      NonTextSurvivors(df, threshold);
      if exists i :: 0 <= i < |noRare.rows| && !Cell(noRare.rows[i], NameColumn).Text? then
        Err(TypeError)
      else
        var stripped := StripNames(noRare.rows);
        var clean := Filter(Filter(stripped, NoSlash), NoRankMarker);
        CleanedRowsClean(noRare, stripped);
        CleanedRowsFromInput(df, threshold, noRare, stripped);
        CleanedRowsWellFormed(df, threshold, noRare, stripped);
        Ok(Frame(noRare.columns, clean))
  }

  /** A survivor of the rare filter whose name is not a string is a frequent input row whose name is not a string. */
  lemma NonTextSurvivors(df: Frame, threshold: int)
    requires RemoveRareSpecies(df, threshold).Ok?
    ensures var noRare := RemoveRareSpecies(df, threshold).value;
      (exists k :: 0 <= k < |noRare.rows| && !Cell(noRare.rows[k], NameColumn).Text?) <==>
      (exists i :: 0 <= i < |df.rows| && Frequent(ColumnValues(df.rows, NameColumn), threshold, df.rows[i])
         && !Cell(df.rows[i], NameColumn).Text?)
  {
    NonTextSurvivorIsFrequentInput(df, threshold);
    FrequentNonTextInputSurvives(df, threshold);
  }

  lemma NonTextSurvivorIsFrequentInput(df: Frame, threshold: int)
    requires RemoveRareSpecies(df, threshold).Ok?
    ensures var noRare := RemoveRareSpecies(df, threshold).value;
      (exists k :: 0 <= k < |noRare.rows| && !Cell(noRare.rows[k], NameColumn).Text?) ==>
      (exists i :: 0 <= i < |df.rows| && Frequent(ColumnValues(df.rows, NameColumn), threshold, df.rows[i])
         && !Cell(df.rows[i], NameColumn).Text?)
  {
    var noRare := RemoveRareSpecies(df, threshold).value;
    var names := ColumnValues(df.rows, NameColumn);
    if exists k :: 0 <= k < |noRare.rows| && !Cell(noRare.rows[k], NameColumn).Text? {
      var k :| 0 <= k < |noRare.rows| && !Cell(noRare.rows[k], NameColumn).Text?;
      assert noRare.rows[k] in noRare.rows;
      var i :| 0 <= i < |df.rows| && df.rows[i] == noRare.rows[k];
      assert Frequent(names, threshold, df.rows[i]);
    }
  }

  lemma FrequentNonTextInputSurvives(df: Frame, threshold: int)
    requires RemoveRareSpecies(df, threshold).Ok?
    ensures var noRare := RemoveRareSpecies(df, threshold).value;
      (exists i :: 0 <= i < |df.rows| && Frequent(ColumnValues(df.rows, NameColumn), threshold, df.rows[i])
         && !Cell(df.rows[i], NameColumn).Text?) ==>
      (exists k :: 0 <= k < |noRare.rows| && !Cell(noRare.rows[k], NameColumn).Text?)
  {
    var noRare := RemoveRareSpecies(df, threshold).value;
    var names := ColumnValues(df.rows, NameColumn);
    if exists i :: 0 <= i < |df.rows| && Frequent(names, threshold, df.rows[i]) && !Cell(df.rows[i], NameColumn).Text? {
      var i :| 0 <= i < |df.rows| && Frequent(names, threshold, df.rows[i]) && !Cell(df.rows[i], NameColumn).Text?;
      assert df.rows[i] in df.rows;
      assert df.rows[i] in noRare.rows;
      var k :| 0 <= k < |noRare.rows| && noRare.rows[k] == df.rows[i];
    }
  }

  /** Every name left by the sanitation is stripped, slash-free and marker-free, and the rows keep their order. */
  lemma CleanedRowsClean(noRare: Frame, stripped: seq<Row>)
    requires forall i :: 0 <= i < |noRare.rows| ==> Cell(noRare.rows[i], NameColumn).Text?
    requires stripped == StripNames(noRare.rows)
    ensures var clean := Filter(Filter(stripped, NoSlash), NoRankMarker);
      && (forall row :: row in clean ==> CleanName(Cell(row, NameColumn)))
      && IsSubsequence(clean, stripped)
  {
    FilterFilter(stripped, NoSlash, NoRankMarker);
    FilterIsSubsequence(stripped, Both(NoSlash, NoRankMarker));
    var clean := Filter(stripped, Both(NoSlash, NoRankMarker));
    forall row | row in clean ensures CleanName(Cell(row, NameColumn)) {
      var k :| 0 <= k < |stripped| && stripped[k] == row;
      StripIdempotent(Cell(noRare.rows[k], NameColumn).s);
    }
  }

  /** The sanitised rows are exactly the frequent input rows, name stripped, that pass both masks. */
  lemma CleanedRowsFromInput(df: Frame, threshold: int, noRare: Frame, stripped: seq<Row>)
    requires RemoveRareSpecies(df, threshold) == Ok(noRare)
    requires stripped == StripNames(noRare.rows)
    ensures var clean := Filter(Filter(stripped, NoSlash), NoRankMarker);
      forall row :: row in clean <==>
        exists i :: (0 <= i < |df.rows| && Frequent(ColumnValues(df.rows, NameColumn), threshold, df.rows[i])
          && row == df.rows[i][NameColumn := StripName(Cell(df.rows[i], NameColumn))]
          && NoSlash(row) && NoRankMarker(row))
  {
    FilterFilter(stripped, NoSlash, NoRankMarker);
    CleanedRowsComeFromInput(df, threshold, noRare, stripped);
    InputRowsReachCleaned(df, threshold, noRare, stripped);
  }

  lemma CleanedRowsComeFromInput(df: Frame, threshold: int, noRare: Frame, stripped: seq<Row>)
    requires RemoveRareSpecies(df, threshold) == Ok(noRare)
    requires stripped == StripNames(noRare.rows)
    ensures forall row :: row in Filter(stripped, Both(NoSlash, NoRankMarker)) ==>
      exists i :: (0 <= i < |df.rows| && Frequent(ColumnValues(df.rows, NameColumn), threshold, df.rows[i])
        && row == df.rows[i][NameColumn := StripName(Cell(df.rows[i], NameColumn))]
        && NoSlash(row) && NoRankMarker(row))
  {
    var clean := Filter(stripped, Both(NoSlash, NoRankMarker));
    var names := ColumnValues(df.rows, NameColumn);
    forall row | row in clean
      ensures exists i :: (0 <= i < |df.rows| && Frequent(names, threshold, df.rows[i])
        && row == df.rows[i][NameColumn := StripName(Cell(df.rows[i], NameColumn))]
        && NoSlash(row) && NoRankMarker(row))
    {
      var k :| 0 <= k < |stripped| && stripped[k] == row;
      assert noRare.rows[k] in noRare.rows;
      var i :| 0 <= i < |df.rows| && df.rows[i] == noRare.rows[k];
      assert Frequent(names, threshold, df.rows[i]);
      assert row == df.rows[i][NameColumn := StripName(Cell(df.rows[i], NameColumn))];
      assert Both(NoSlash, NoRankMarker)(row);
    }
  }

  lemma InputRowsReachCleaned(df: Frame, threshold: int, noRare: Frame, stripped: seq<Row>)
    requires RemoveRareSpecies(df, threshold) == Ok(noRare)
    requires stripped == StripNames(noRare.rows)
    ensures forall row :: (exists i :: (0 <= i < |df.rows| && Frequent(ColumnValues(df.rows, NameColumn), threshold, df.rows[i])
        && row == df.rows[i][NameColumn := StripName(Cell(df.rows[i], NameColumn))]
        && NoSlash(row) && NoRankMarker(row))) ==> row in Filter(stripped, Both(NoSlash, NoRankMarker))
  {
    var clean := Filter(stripped, Both(NoSlash, NoRankMarker));
    var names := ColumnValues(df.rows, NameColumn);
    forall row | exists i :: (0 <= i < |df.rows| && Frequent(names, threshold, df.rows[i])
        && row == df.rows[i][NameColumn := StripName(Cell(df.rows[i], NameColumn))]
        && NoSlash(row) && NoRankMarker(row))
      ensures row in clean
    {
      var i :| (0 <= i < |df.rows| && Frequent(names, threshold, df.rows[i])
        && row == df.rows[i][NameColumn := StripName(Cell(df.rows[i], NameColumn))]
        && NoSlash(row) && NoRankMarker(row));
      assert df.rows[i] in df.rows;
      assert df.rows[i] in noRare.rows;
      var k :| 0 <= k < |noRare.rows| && noRare.rows[k] == df.rows[i];
      assert stripped[k] == row;
      assert Both(NoSlash, NoRankMarker)(row);
    }
  }

  /** Stripping and filtering keep every row keyed by the frame's columns. */
  lemma CleanedRowsWellFormed(df: Frame, threshold: int, noRare: Frame, stripped: seq<Row>)
    requires RemoveRareSpecies(df, threshold) == Ok(noRare)
    requires stripped == StripNames(noRare.rows)
    ensures WellFormed(df) ==> WellFormed(Frame(noRare.columns, Filter(Filter(stripped, NoSlash), NoRankMarker)))
  {
    if WellFormed(df) {
      var clean := Filter(Filter(stripped, NoSlash), NoRankMarker);
      FilterFilter(stripped, NoSlash, NoRankMarker);
      forall k | 0 <= k < |clean| ensures clean[k].Keys == set c | c in noRare.columns {
        assert clean[k] in clean;
        var m :| 0 <= m < |stripped| && stripped[m] == clean[k];
      }
    }
  }

  /**
   * The rare filter counts the names as read, before stripping: two records
   * whose names differ only by a trailing blank are two species seen once each,
   * so a threshold of 1 removes both.
   */
  lemma RareFilterSeesUntrimmedNames()
    ensures var df := Frame([NameColumn], [map[NameColumn := Text("Aa")], map[NameColumn := Text("Aa ")]]);
      FilterAndClean(df, 1) == Ok(Frame([NameColumn], []))
  {
    var df := Frame([NameColumn], [map[NameColumn := Text("Aa")], map[NameColumn := Text("Aa ")]]);
    var names := ColumnValues(df.rows, NameColumn);
    assert names == [Text("Aa"), Text("Aa ")];
    assert Occurrences(names, Text("Aa")) == 1 && Occurrences(names, Text("Aa ")) == 1;
    var rare := ListRareSpecies(df, 1).value;
    assert Text("Aa") in rare && Text("Aa ") in rare;
    FilterNoneKept(df.rows, NameNotIn(rare));
  }

  // ---------------------------------------------------------------------------
  // The pipeline
  // ---------------------------------------------------------------------------

  /**
   * `main`: merge, associate each record with its grid cell (`grid_id`), filter
   * and clean, then count species per cell. Writing the CSV is left out.
   */
  function Pipeline(ebirdCsv: string, inatCsv: string, grid: Association.GridLayer, fileExists: string -> bool,
                    readCsv: string -> Frame, threshold: int): (r: Result<Frame>)
    ensures !fileExists(ebirdCsv) || !fileExists(inatCsv) ==> r == Err(SystemExit(1))
    ensures r.Ok? ==> WellFormed(r.value) && |r.value.columns| >= 1 && r.value.columns[0] == GridIdColumn
    ensures r.Ok? ==> forall s :: s in r.value.columns[1..] ==> CleanName(Text(s))
    ensures LoadAndMerge(ebirdCsv, inatCsv, fileExists, readCsv).Err? ==>
      r == Err(LoadAndMerge(ebirdCsv, inatCsv, fileExists, readCsv).error)
    ensures LoadAndMerge(ebirdCsv, inatCsv, fileExists, readCsv).Ok? ==>
      var merged := LoadAndMerge(ebirdCsv, inatCsv, fileExists, readCsv).value;
      var gridded := Association.AssignGridCellIds(grid, Association.InMemory(merged), GridIdColumn, readCsv);
      && (gridded.Err? ==> r == Err(gridded.error))
      && (gridded.Ok? ==> r == CleanAndCount(gridded.value, threshold))
  {
    match LoadAndMerge(ebirdCsv, inatCsv, fileExists, readCsv)
    case Err(e) => Err(e)
    case Ok(merged) =>
      match Association.AssignGridCellIds(grid, Association.InMemory(merged), GridIdColumn, readCsv)
      case Err(e) => Err(e)
      case Ok(gridded) =>
        CleanAndCount(gridded, threshold)
  }

  /** The last two stages: sanitise the gridded records, then count species per cell. */
  function CleanAndCount(gridded: Frame, threshold: int): (r: Result<Frame>)
    ensures r.Ok? ==> WellFormed(r.value) && |r.value.columns| >= 1 && r.value.columns[0] == GridIdColumn
    ensures r.Ok? ==> forall s :: s in r.value.columns[1..] ==> CleanName(Text(s))
    ensures FilterAndClean(gridded, threshold).Err? ==> r == Err(FilterAndClean(gridded, threshold).error)
    ensures FilterAndClean(gridded, threshold).Ok? ==> r == MakeCountsDataFrame(FilterAndClean(gridded, threshold).value)
  {
    match FilterAndClean(gridded, threshold)
    case Err(e) => Err(e)
    case Ok(cleaned) =>
      CountsOfCleanNames(cleaned);
      MakeCountsDataFrame(cleaned)
  }

  /**
   * When every record carries a cell id, the count table accounts for each
   * record that survives sanitation exactly once.
   */
  lemma CleanAndCountTotals(gridded: Frame, threshold: int)
    requires forall row :: row in gridded.rows ==> Cell(row, GridIdColumn) != Missing
    requires CleanAndCount(gridded, threshold).Ok?
    ensures var out := CleanAndCount(gridded, threshold).value;
      TotalSum(out.rows, out.columns[1..]) == |FilterAndClean(gridded, threshold).value.rows| as real
  {
    var cleaned := FilterAndClean(gridded, threshold).value;
    CleanedRowsKeyed(gridded, threshold);
    FilterAllKept(cleaned.rows, Keyed);
    MakeCountsDataFrameTotals(cleaned);
  }

  /** Sanitation keeps the cell id of every record and leaves only string names, so every survivor is counted. */
  lemma CleanedRowsKeyed(gridded: Frame, threshold: int)
    requires forall row :: row in gridded.rows ==> Cell(row, GridIdColumn) != Missing
    requires FilterAndClean(gridded, threshold).Ok?
    ensures forall row :: row in FilterAndClean(gridded, threshold).value.rows ==> Keyed(row)
  {
    var noRare := RemoveRareSpecies(gridded, threshold).value;
    var stripped := StripNames(noRare.rows);
    forall k | 0 <= k < |stripped| ensures Cell(stripped[k], GridIdColumn) != Missing {
      assert noRare.rows[k] in noRare.rows;
    }
    assert FilterAndClean(gridded, threshold).value.rows == Filter(Filter(stripped, NoSlash), NoRankMarker);
  }

  /**
   * End to end, the species counts of all cells add up to the number of
   * gridded records that survive sanitation.
   */
  lemma PipelineTotals(ebirdCsv: string, inatCsv: string, grid: Association.GridLayer, fileExists: string -> bool,
                       readCsv: string -> Frame, threshold: int)
    requires Pipeline(ebirdCsv, inatCsv, grid, fileExists, readCsv, threshold).Ok?
    ensures var merged := LoadAndMerge(ebirdCsv, inatCsv, fileExists, readCsv).value;
      var gridded := Association.AssignGridCellIds(grid, Association.InMemory(merged), GridIdColumn, readCsv).value;
      var out := Pipeline(ebirdCsv, inatCsv, grid, fileExists, readCsv, threshold).value;
      TotalSum(out.rows, out.columns[1..]) == |FilterAndClean(gridded, threshold).value.rows| as real
  {
    var merged := LoadAndMerge(ebirdCsv, inatCsv, fileExists, readCsv).value;
    var gridded := Association.AssignGridCellIds(grid, Association.InMemory(merged), GridIdColumn, readCsv).value;
    // Each joined row is stamped with the non-NaN id of the cell it falls in.
    assert forall row :: row in gridded.rows ==> Cell(row, GridIdColumn) != Missing;
    CleanAndCountTotals(gridded, threshold);
  }

  /** Counting records whose names are all clean yields only clean species columns. */
  lemma CountsOfCleanNames(cleaned: Frame)
    requires forall row :: row in cleaned.rows ==> CleanName(Cell(row, NameColumn))
    ensures MakeCountsDataFrame(cleaned).Ok? ==>
      forall s :: s in MakeCountsDataFrame(cleaned).value.columns[1..] ==> CleanName(Text(s))
  {
    if MakeCountsDataFrame(cleaned).Ok? {
      forall s | s in MakeCountsDataFrame(cleaned).value.columns[1..] ensures CleanName(Text(s)) {
        var i :| 0 <= i < |cleaned.rows| && Keyed(cleaned.rows[i]) && Cell(cleaned.rows[i], NameColumn) == Text(s);
        assert cleaned.rows[i] in cleaned.rows;
      }
    }
  }
}
