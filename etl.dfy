/**
 * The per-source cleaning steps: the eBird projection-and-rename and the
 * iNaturalist accuracy filter, scientific-name normalisation and column
 * selection. Reading and writing the CSV files is outside the model.
 */
module Etl {
  import opened Tables
  import opened Text

  /** The five columns every cleaned source ends with, in this order. */
  const OutputColumns: seq<string> := ["common_name", "scientific_name", "latitude", "longitude", "observed_on"]

  /** The eBird column each output column is read from, position by position. */
  const EbirdColumns: seq<string> := ["COMMON NAME", "SCIENTIFIC NAME", "LATITUDE", "LONGITUDE", "OBSERVATION DATE"]

  /** Default `max_accuracy` of the iNaturalist `main`, in metres. */
  const DefaultMaxAccuracy: real := 2500.0

  const AccuracyColumn: string := "positional_accuracy"
  const NameColumn: string := "scientific_name"
  const OriginalNameColumn: string := "scientific_name_sub"

  lemma OutputColumnsDistinct()
    ensures Distinct(OutputColumns)
  {
  }

  // ---------------------------------------------------------------------------
  // eBird
  // ---------------------------------------------------------------------------

  /** A projected eBird row with every column renamed to its output name. */
  function RenameEbirdRow(r: Row): (out: Row)
    ensures out.Keys == set c | c in OutputColumns
    ensures forall k :: 0 <= k < |OutputColumns| ==> out[OutputColumns[k]] == Cell(r, EbirdColumns[k])
  {
    map["common_name" := Cell(r, "COMMON NAME"), "scientific_name" := Cell(r, "SCIENTIFIC NAME"),
        "latitude" := Cell(r, "LATITUDE"), "longitude" := Cell(r, "LONGITUDE"),
        "observed_on" := Cell(r, "OBSERVATION DATE")]
  }

  /** `.rename(columns=mapping)` applied to every row of the projected frame. */
  function RenameEbirdRows(rows: seq<Row>): (out: Frame)
    ensures out.columns == OutputColumns && |out.rows| == |rows| && WellFormed(out)
    ensures forall i, k :: 0 <= i < |rows| && 0 <= k < |OutputColumns| ==>
      Cell(out.rows[i], OutputColumns[k]) == Cell(rows[i], EbirdColumns[k])
  {
    OutputColumnsDistinct();
    Frame(OutputColumns, seq(|rows|, i requires 0 <= i < |rows| => RenameEbirdRow(rows[i])))
  }

  /**
   * `select_and_rename_columns`: `df[list(mapping.keys())].rename(columns=mapping)`.
   * A source column that is absent fails the selection with `KeyError`.
   */
  function SelectAndRenameColumns(f: Frame): (r: Result<Frame>)
    ensures r.Err? <==> exists c :: c in EbirdColumns && c !in f.columns
    ensures r.Err? ==> r.error.KeyError?
    ensures r.Ok? ==> r.value.columns == OutputColumns && |r.value.rows| == |f.rows| && WellFormed(r.value)
    ensures r.Ok? ==> forall i, k :: 0 <= i < |f.rows| && 0 <= k < |OutputColumns| ==>
      Cell(r.value.rows[i], OutputColumns[k]) == Cell(f.rows[i], EbirdColumns[k])
  {
    match Project(f, EbirdColumns)
    case Err(e) => Err(e)
    case Ok(p) =>
      var out := RenameEbirdRows(p.rows);
      assert forall i, k :: 0 <= i < |f.rows| && 0 <= k < |OutputColumns| ==>
        Cell(out.rows[i], OutputColumns[k]) == Cell(f.rows[i], EbirdColumns[k]) by {
        forall i, k | 0 <= i < |f.rows| && 0 <= k < |OutputColumns|
          ensures Cell(out.rows[i], OutputColumns[k]) == Cell(f.rows[i], EbirdColumns[k])
        {
          assert p.rows[i] == RestrictRow(f.rows[i], EbirdColumns);
          assert EbirdColumns[k] in EbirdColumns;
        }
      }
      Ok(out)
  }

  // ---------------------------------------------------------------------------
  // iNaturalist
  // ---------------------------------------------------------------------------

  /** `positional_accuracy < max_accuracy` for one row; NaN compares false. */
  predicate AccurateEnough(r: Row, maxAccuracy: real)
  {
    LessThan(Cell(r, AccuracyColumn), maxAccuracy)
  }

  /**
   * `filter_by_accuracy`: `df[df['positional_accuracy'] < max_accuracy]`.
   * An absent column raises `KeyError`; a text value cannot be compared with a
   * number and raises `TypeError`.
   */
  function FilterByAccuracy(f: Frame, maxAccuracy: real): (r: Result<Frame>)
    ensures r.Err? <==> AccuracyColumn !in f.columns || exists i :: 0 <= i < |f.rows| && Cell(f.rows[i], AccuracyColumn).Text?
    ensures r.Ok? ==> r.value.columns == f.columns
    ensures r.Ok? ==> forall row :: row in r.value.rows <==>
      row in f.rows && LessThan(Cell(row, AccuracyColumn), maxAccuracy)
    ensures r.Ok? ==> IsSubsequence(r.value.rows, f.rows)
    ensures r.Ok? ==> forall row :: Occurrences(r.value.rows, row) ==
                          if LessThan(Cell(row, AccuracyColumn), maxAccuracy) then Occurrences(f.rows, row) else 0
    ensures r.Ok? && WellFormed(f) ==> WellFormed(r.value)
  {
    if AccuracyColumn !in f.columns then Err(KeyError(Some(AccuracyColumn)))
    else if exists i :: 0 <= i < |f.rows| && Cell(f.rows[i], AccuracyColumn).Text? then Err(TypeError)
    else
      var kept := Filter(f.rows, (row: Row) => AccurateEnough(row, maxAccuracy));
      FilterIsSubsequence(f.rows, (row: Row) => AccurateEnough(row, maxAccuracy));
      assert forall i :: 0 <= i < |kept| ==> kept[i] in f.rows by {
        forall i | 0 <= i < |kept| ensures kept[i] in f.rows {
          assert kept[i] in kept;
        }
      }
      Ok(Frame(f.columns, kept))
  }

  /** A row exactly at the limit is removed: the comparison is strict. */
  lemma AccuracyAtLimitRemoved(f: Frame, maxAccuracy: real, row: Row)
    requires FilterByAccuracy(f, maxAccuracy).Ok?
    requires Cell(row, AccuracyColumn) == Number(maxAccuracy)
    ensures row !in FilterByAccuracy(f, maxAccuracy).value.rows
  {
  }

  /** `' '.join(x.split()[:2]) if isinstance(x, str) else x`. */
  function NormalizeName(v: Value): (r: Value)
    ensures v.Text? ==> r.Text? && Tokens(r.s) == (if |Tokens(v.s)| <= 2 then Tokens(v.s) else Tokens(v.s)[..2])
    ensures !v.Text? ==> r == v
  {
    if v.Text? then
      FirstTwoWordsSpec(v.s);
      Text(FirstTwoWords(v.s))
    else v
  }

  /** A normalised name has at most two words, and normalising it again changes nothing. */
  lemma NormalizeNameIdempotent(v: Value)
    ensures NormalizeName(NormalizeName(v)) == NormalizeName(v)
    ensures NormalizeName(v).Text? ==> |Tokens(NormalizeName(v).s)| <= 2
  {
    if v.Text? {
      FirstTwoWordsIdempotent(v.s);
      FirstTwoWordsSpec(v.s);
    }
  }

  /** `df.rename(columns={from: to})` on the column list: the label keeps its position. */
  function RenameLabel(cols: seq<string>, from: string, to: string): (out: seq<string>)
    ensures |out| == |cols|
    ensures forall k :: 0 <= k < |cols| ==> out[k] == if cols[k] == from then to else cols[k]
  {
    seq(|cols|, k requires 0 <= k < |cols| => if cols[k] == from then to else cols[k])
  }

  /** The name a row holds before normalisation: under its original label, or under the backup label. */
  function OriginalName(r: Row, hasName: bool): Value
  {
    if hasName then Cell(r, NameColumn) else Cell(r, OriginalNameColumn)
  }

  /** One row after the rename and the new column: the original name under the backup label, its normal form under the name label. */
  function NormalizedRow(r: Row, hasName: bool): (out: Row)
    ensures Cell(out, OriginalNameColumn) == OriginalName(r, hasName)
    ensures Cell(out, NameColumn) == NormalizeName(OriginalName(r, hasName))
    ensures forall k :: k in r && k != NameColumn && k != OriginalNameColumn ==> k in out && out[k] == r[k]
    ensures out.Keys == (if hasName then r.Keys - {NameColumn} else r.Keys) + {OriginalNameColumn, NameColumn}
  {
    var original := OriginalName(r, hasName);
    var kept := if hasName then r - {NameColumn} else r;
    kept[OriginalNameColumn := original][NameColumn := NormalizeName(original)]
  }

  /**
   * `normalize_scientific_names`: rename `scientific_name` to
   * `scientific_name_sub`, then add a new `scientific_name` holding the first
   * two words of each original name. With neither column present the lookup
   * of `scientific_name_sub` raises `KeyError`; with both present the rename
   * yields two `scientific_name_sub` columns and assigning that two-column
   * frame to one column raises `ValueError`.
   */
  function NormalizeScientificNames(f: Frame): (r: Result<Frame>)
    ensures r.Ok? <==> (NameColumn in f.columns <==> OriginalNameColumn !in f.columns)
    ensures r.Ok? ==> (|r.value.rows| == |f.rows|
      && r.value.columns == RenameLabel(f.columns, NameColumn, OriginalNameColumn) + [NameColumn])
    ensures r.Ok? ==> forall i :: 0 <= i < |f.rows| ==>
      var original := OriginalName(f.rows[i], NameColumn in f.columns);
      && Cell(r.value.rows[i], OriginalNameColumn) == original
      && Cell(r.value.rows[i], NameColumn) == NormalizeName(original)
      && forall k :: k in f.rows[i] && k != NameColumn && k != OriginalNameColumn ==> Cell(r.value.rows[i], k) == f.rows[i][k]
    ensures r.Ok? && WellFormed(f) ==> WellFormed(r.value)
  {
    var hasName := NameColumn in f.columns;
    var hasOriginal := OriginalNameColumn in f.columns;
    if hasName && hasOriginal then Err(ValueError(OriginalNameColumn))
    else if !hasName && !hasOriginal then Err(KeyError(Some(OriginalNameColumn)))
    else
      var cols := RenameLabel(f.columns, NameColumn, OriginalNameColumn) + [NameColumn];
      var rows := seq(|f.rows|, i requires 0 <= i < |f.rows| => NormalizedRow(f.rows[i], hasName));
      assert WellFormed(f) ==> WellFormed(Frame(cols, rows)) by {
        if WellFormed(f) {
          NormalizedColumnsWellFormed(f, hasName);
        }
      }
      Ok(Frame(cols, rows))
  }

  lemma NormalizedColumnsWellFormed(f: Frame, hasName: bool)
    requires WellFormed(f)
    requires hasName <==> NameColumn in f.columns
    requires NameColumn in f.columns <==> OriginalNameColumn !in f.columns
    ensures var cols := RenameLabel(f.columns, NameColumn, OriginalNameColumn) + [NameColumn];
      && Distinct(cols)
      && forall i :: 0 <= i < |f.rows| ==> NormalizedRow(f.rows[i], hasName).Keys == set c | c in cols
  {
    var renamed := RenameLabel(f.columns, NameColumn, OriginalNameColumn);
    var cols := renamed + [NameColumn];
    assert NameColumn !in renamed;
    forall i, j | 0 <= i < j < |cols| ensures cols[i] != cols[j] {
      if j < |renamed| {
        assert f.columns[i] != f.columns[j];
      }
    }
    assert (set c | c in renamed) == if hasName then (set c | c in f.columns) - {NameColumn} + {OriginalNameColumn} else set c | c in f.columns by {
      forall c ensures c in renamed <==> c in (if hasName then (set c | c in f.columns) - {NameColumn} + {OriginalNameColumn} else set c | c in f.columns) {
        if c in renamed {
          var k :| 0 <= k < |renamed| && renamed[k] == c;
          assert f.columns[k] in f.columns;
        }
        if hasName && c == OriginalNameColumn {
          var k :| 0 <= k < |f.columns| && f.columns[k] == NameColumn;
          assert renamed[k] == c;
        } else if c in f.columns && c != NameColumn {
          var k :| 0 <= k < |f.columns| && f.columns[k] == c;
          assert renamed[k] == c;
        }
      }
    }
  }

  /** `select_columns`: `df[cols].copy()` with the five output columns. */
  function SelectColumns(f: Frame): (r: Result<Frame>)
    ensures r.Err? <==> exists c :: c in OutputColumns && c !in f.columns
    ensures r.Ok? ==> r.value.columns == OutputColumns && |r.value.rows| == |f.rows| && WellFormed(r.value)
    ensures r.Ok? ==> forall i, c :: 0 <= i < |f.rows| && c in OutputColumns ==> Cell(r.value.rows[i], c) == Cell(f.rows[i], c)
  {
    OutputColumnsDistinct();
    Project(f, OutputColumns)
  }

  /**
   * The iNaturalist `main` without the file I/O: accuracy filter, name
   * normalisation, column selection, in that order.
   */
  function CleanInat(f: Frame, maxAccuracy: real): (r: Result<Frame>)
    ensures r.Ok? ==> r.value.columns == OutputColumns && WellFormed(r.value)
    ensures r.Ok? ==> |r.value.rows| <= |f.rows|
    ensures r.Ok? ==> forall i :: 0 <= i < |r.value.rows| ==>
      var name := Cell(r.value.rows[i], NameColumn);
      name.Text? ==> |Tokens(name.s)| <= 2
    ensures FilterByAccuracy(f, maxAccuracy).Err? ==> r == Err(FilterByAccuracy(f, maxAccuracy).error)
    ensures FilterByAccuracy(f, maxAccuracy).Ok? ==>
      var normalized := NormalizeScientificNames(FilterByAccuracy(f, maxAccuracy).value);
      && (normalized.Err? ==> r == Err(normalized.error))
      && (normalized.Ok? ==> r == SelectColumns(normalized.value))
  {
    match FilterByAccuracy(f, maxAccuracy)
    case Err(e) => Err(e)
    case Ok(accurate) =>
      assert |accurate.rows| <= |f.rows| by {
        assert accurate.rows == Filter(f.rows, (row: Row) => AccurateEnough(row, maxAccuracy));
      }
      match NormalizeScientificNames(accurate)
      case Err(e) => Err(e)
      case Ok(normalized) =>
        var r := SelectColumns(normalized);
        assert r.Ok? ==> forall i :: 0 <= i < |r.value.rows| ==>
          var name := Cell(r.value.rows[i], NameColumn);
          name.Text? ==> |Tokens(name.s)| <= 2 by {
          if r.Ok? {
            forall i | 0 <= i < |r.value.rows|
              ensures var name := Cell(r.value.rows[i], NameColumn); name.Text? ==> |Tokens(name.s)| <= 2
            {
              var original := OriginalName(accurate.rows[i], NameColumn in accurate.columns);
              assert NameColumn in OutputColumns;
              assert Cell(r.value.rows[i], NameColumn) == NormalizeName(original);
              NormalizeNameIdempotent(original);
            }
          }
        }
        r
  }
}
