/**
 * Point-to-cell association: finding the coordinate columns of an observation
 * table by name prefix, and the `within` spatial join that stamps each
 * observation with the id of the grid cell strictly containing it. The
 * English copies detect both columns with `detect_lat_lon_columns`; the
 * Spanish copy takes the first column with each prefix.
 *
 * Reading the grid and the CSV file is a parameter, the spatial index of the
 * join is a linear search over the cells, and all coordinates are taken to be
 * in one reference system.
 */
module Association {
  import opened Tables
  import opened Text
  import opened Grid

  const DefaultLatPrefix: string := "latitude"
  const DefaultLonPrefix: string := "longitude"
  const SpanishLatPrefix: string := "latitud"
  const SpanishLonPrefix: string := "longitud"

  /** Default `cell_id_field` of `assign_grid_cell_ids` and of the Spanish `grid_id_field`. */
  const DefaultCellIdField: string := "cell_id"
  /** The `cell_id_field` the packaged `main` passes. */
  const MainCellIdField: string := "grid_id"

  // ---------------------------------------------------------------------------
  // Column detection
  // ---------------------------------------------------------------------------

  /** `[c for c in cols if c.lower().startswith(prefix.lower())]`. */
  function ColumnsWithPrefix(cols: seq<string>, prefix: string): (found: seq<string>)
    ensures forall c :: c in found <==> c in cols && StartsWithIgnoringCase(c, prefix)
    ensures IsSubsequence(found, cols)
  {
    FilterIsSubsequence(cols, (c: string) => StartsWithIgnoringCase(c, prefix));
    Filter(cols, (c: string) => StartsWithIgnoringCase(c, prefix))
  }

  /**
   * `detect_lat_lon_columns`: exactly one column per prefix, compared without
   * case, or `ValueError`; the latitude check comes first.
   */
  function DetectLatLonColumns(cols: seq<string>, latPrefix: string, lonPrefix: string): (r: Result<(string, string)>)
    ensures |ColumnsWithPrefix(cols, latPrefix)| != 1 ==> r == Err(ValueError(latPrefix))
    ensures |ColumnsWithPrefix(cols, latPrefix)| == 1 && |ColumnsWithPrefix(cols, lonPrefix)| != 1 ==> r == Err(ValueError(lonPrefix))
    ensures |ColumnsWithPrefix(cols, latPrefix)| == 1 && |ColumnsWithPrefix(cols, lonPrefix)| == 1 ==>
      r == Ok((ColumnsWithPrefix(cols, latPrefix)[0], ColumnsWithPrefix(cols, lonPrefix)[0]))
    ensures r.Ok? ==> && r.value.0 in cols && StartsWithIgnoringCase(r.value.0, latPrefix)
                      && r.value.1 in cols && StartsWithIgnoringCase(r.value.1, lonPrefix)
    ensures r.Ok? ==> forall c :: c in cols && StartsWithIgnoringCase(c, latPrefix) ==> c == r.value.0
    ensures r.Ok? ==> forall c :: c in cols && StartsWithIgnoringCase(c, lonPrefix) ==> c == r.value.1
  {
    var lat := ColumnsWithPrefix(cols, latPrefix);
    var lon := ColumnsWithPrefix(cols, lonPrefix);
    if |lat| != 1 then Err(ValueError(latPrefix))
    else if |lon| != 1 then Err(ValueError(lonPrefix))
    else
      assert lat == [lat[0]] && lon == [lon[0]];
      Ok((lat[0], lon[0]))
  }

  /** No column with the prefix: detection fails for that axis. */
  lemma DetectFailsWithoutMatch(cols: seq<string>, latPrefix: string, lonPrefix: string)
    requires forall c :: c in cols ==> !StartsWithIgnoringCase(c, latPrefix)
    ensures DetectLatLonColumns(cols, latPrefix, lonPrefix) == Err(ValueError(latPrefix))
  {
    FilterNoneKept(cols, (c: string) => StartsWithIgnoringCase(c, latPrefix));
  }

  /** Two columns at different positions with the same prefix: detection fails. */
  lemma DetectFailsWhenAmbiguous(cols: seq<string>, latPrefix: string, lonPrefix: string, i: nat, j: nat)
    requires i < j < |cols|
    requires StartsWithIgnoringCase(cols[i], latPrefix) && StartsWithIgnoringCase(cols[j], latPrefix)
    ensures DetectLatLonColumns(cols, latPrefix, lonPrefix) == Err(ValueError(latPrefix))
  {
    FilterKeepsBoth(cols, (c: string) => StartsWithIgnoringCase(c, latPrefix), i, j);
  }

  /** Two kept positions leave at least two elements after filtering. */
  lemma {:induction false} FilterKeepsBoth<T(!new)>(s: seq<T>, p: T -> bool, i: nat, j: nat)
    requires i < j < |s| && p(s[i]) && p(s[j])
    ensures |Filter(s, p)| >= 2
  {
    if i == 0 {
      assert s[1..][j - 1] == s[j];
      assert s[j] in s[1..];
      assert s[j] in Filter(s[1..], p);
    } else {
      FilterKeepsBoth(s[1..], p, i - 1, j - 1);
    }
  }

  /** The Spanish `detect_lat_lon_columns`, with the prefixes fixed to 'latitud' and 'longitud'. */
  function DetectLatLonColumnsSpanish(cols: seq<string>): (r: Result<(string, string)>)
    ensures r == DetectLatLonColumns(cols, SpanishLatPrefix, SpanishLonPrefix)
    ensures r.Ok? ==> StartsWithIgnoringCase(r.value.0, SpanishLatPrefix) && StartsWithIgnoringCase(r.value.1, SpanishLonPrefix)
  {
    DetectLatLonColumns(cols, SpanishLatPrefix, SpanishLonPrefix)
  }

  /** 'Latitude' carries only the Spanish latitude prefix and 'longitude' only the longitude one. */
  lemma EnglishNamesUnderSpanishPrefixes()
    ensures StartsWithIgnoringCase("Latitude", SpanishLatPrefix) && !StartsWithIgnoringCase("Latitude", SpanishLonPrefix)
    ensures !StartsWithIgnoringCase("longitude", SpanishLatPrefix) && StartsWithIgnoringCase("longitude", SpanishLonPrefix)
  {
    LatitudeHasSpanishLatPrefix();
    NotStartsWithIgnoringCaseAt("Latitude", SpanishLonPrefix, 1);
    NotStartsWithIgnoringCaseAt("longitude", SpanishLatPrefix, 1);
    LongitudeHasSpanishLonPrefix();
  }

  lemma LatitudeHasSpanishLatPrefix()
    ensures StartsWithIgnoringCase("Latitude", SpanishLatPrefix)
  {
    StartsWithIgnoringCaseByChars("Latitude", SpanishLatPrefix);
  }

  lemma LongitudeHasSpanishLonPrefix()
    ensures StartsWithIgnoringCase("longitude", SpanishLonPrefix)
  {
    StartsWithIgnoringCaseByChars("longitude", SpanishLonPrefix);
  }

  /** The Spanish prefixes also accept the English names: 'Latitude' starts with 'latitud'. */
  lemma SpanishPrefixAcceptsEnglish()
    ensures DetectLatLonColumnsSpanish(["Latitude", "longitude"]) == Ok(("Latitude", "longitude"))
  {
    EnglishNamesUnderSpanishPrefixes();
    ColumnsWithPrefixOfPair("Latitude", "longitude", SpanishLatPrefix);
    ColumnsWithPrefixOfPair("Latitude", "longitude", SpanishLonPrefix);
  }

  /** The prefix filter of a two-column table keeps each column on its own test. */
  lemma ColumnsWithPrefixOfPair(a: string, b: string, prefix: string)
    ensures ColumnsWithPrefix([a, b], prefix)
      == (if StartsWithIgnoringCase(a, prefix) then [a] else []) + (if StartsWithIgnoringCase(b, prefix) then [b] else [])
  {
    var p := (c: string) => StartsWithIgnoringCase(c, prefix);
    assert [a, b][1..] == [b] && [b][1..] == [];
    assert Filter([b], p) == (if p(b) then [b] else []);
    assert Filter([a, b], p) == (if p(a) then [a] else []) + Filter([b], p);
  }

  /** Both 'latitud' and 'latitude' carry the Spanish latitude prefix, so detection rejects the pair. */
  lemma SpanishDetectionRejectsBothSpellings()
    ensures DetectLatLonColumnsSpanish(["latitud", "latitude", "longitud"]) == Err(ValueError(SpanishLatPrefix))
  {
    StartsWithIgnoringCaseByChars("latitud", SpanishLatPrefix);
    StartsWithIgnoringCaseByChars("latitude", SpanishLatPrefix);
    DetectFailsWhenAmbiguous(["latitud", "latitude", "longitud"], SpanishLatPrefix, SpanishLonPrefix, 0, 1);
  }

  /** `next((c for c in cols if c.lower().startswith(prefix)), None)`. */
  function FirstWithPrefix(cols: seq<string>, prefix: string): (r: Option<string>)
    ensures r.None? <==> forall c :: c in cols ==> !StartsWithIgnoringCase(c, prefix)
    ensures r.Some? ==> exists k :: (0 <= k < |cols| && cols[k] == r.value && StartsWithIgnoringCase(cols[k], prefix)
      && forall m :: 0 <= m < k ==> !StartsWithIgnoringCase(cols[m], prefix))
  {
    if cols == [] then None
    else if StartsWithIgnoringCase(cols[0], prefix) then Some(cols[0])
    else
      var rest := FirstWithPrefix(cols[1..], prefix);
      assert forall c :: c in cols ==> c == cols[0] || c in cols[1..];
      if rest.Some? then
        assert exists k :: (0 <= k < |cols| && cols[k] == rest.value && StartsWithIgnoringCase(cols[k], prefix)
          && forall m :: 0 <= m < k ==> !StartsWithIgnoringCase(cols[m], prefix)) by {
          var k :| 0 <= k < |cols[1..]| && cols[1..][k] == rest.value && StartsWithIgnoringCase(cols[1..][k], prefix)
            && forall m :: 0 <= m < k ==> !StartsWithIgnoringCase(cols[1..][m], prefix);
          assert cols[k + 1] == rest.value;
          forall m | 0 <= m < k + 1 ensures !StartsWithIgnoringCase(cols[m], prefix) {
            if m > 0 {
              assert cols[m] == cols[1..][m - 1];
            }
          }
        }
        rest
      else rest
  }


  // ---------------------------------------------------------------------------
  // The spatial join
  // ---------------------------------------------------------------------------

  /** One feature of the grid layer: its attribute row and its rectangle. */
  datatype GridFeature = GridFeature(attributes: Row, box: Rect)

  /** The grid layer read from the GeoPackage. */
  datatype GridLayer = GridLayer(columns: seq<string>, features: seq<GridFeature>)

  /** The `observations` argument: a CSV path, a DataFrame, or anything else. */
  datatype Observations = CsvPath(path: string) | InMemory(frame: Frame) | OtherValue

  /** shapely `Point(x, y).within(box)` for an axis-aligned box: strictly inside, boundary excluded. */
  predicate Within(x: real, y: real, box: Rect)
  {
    box.minX < x < box.maxX && box.minY < y < box.maxY
  }

  /** The point `(longitude, latitude)` of an observation row, when both coordinates are numbers. */
  function PointOf(row: Row, latCol: string, lonCol: string): Option<(real, real)>
  {
    match (Cell(row, lonCol), Cell(row, latCol))
    case (Number(x), Number(y)) => Some((x, y))
    case _ => None
  }

  /** The feature's rectangle strictly contains the row's point and its id is not missing. */
  predicate Hits(row: Row, latCol: string, lonCol: string, idField: string, g: GridFeature)
  {
    && PointOf(row, latCol, lonCol).Some?
    && Within(PointOf(row, latCol, lonCol).value.0, PointOf(row, latCol, lonCol).value.1, g.box)
    && Cell(g.attributes, idField) != Missing
  }

  /** The features an observation hits, in grid order. */
  function HitFeatures(row: Row, features: seq<GridFeature>, latCol: string, lonCol: string, idField: string): seq<GridFeature>
  {
    Filter(features, (g: GridFeature) => Hits(row, latCol, lonCol, idField, g))
  }

  /** The rows the join keeps for one observation: one per hit feature, in grid order, stamped with that feature's id. */
  function JoinRow(row: Row, features: seq<GridFeature>, latCol: string, lonCol: string, idField: string): (out: seq<Row>)
    ensures |out| <= |features|
    ensures forall o :: o in out <==>
      exists g :: g in features && Hits(row, latCol, lonCol, idField, g) && o == row[idField := Cell(g.attributes, idField)]
    ensures |out| == |HitFeatures(row, features, latCol, lonCol, idField)|
    ensures forall k :: 0 <= k < |out| ==>
      out[k] == row[idField := Cell(HitFeatures(row, features, latCol, lonCol, idField)[k].attributes, idField)]
  {
    var hits := HitFeatures(row, features, latCol, lonCol, idField);
    var out := seq(|hits|, k requires 0 <= k < |hits| => row[idField := Cell(hits[k].attributes, idField)]);
    assert forall o :: o in out ==>
      exists g :: g in features && Hits(row, latCol, lonCol, idField, g) && o == row[idField := Cell(g.attributes, idField)] by {
      forall o | o in out ensures exists g :: g in features && Hits(row, latCol, lonCol, idField, g) && o == row[idField := Cell(g.attributes, idField)] {
        var k :| 0 <= k < |out| && out[k] == o;
        assert hits[k] in hits;
      }
    }
    assert forall g :: g in features && Hits(row, latCol, lonCol, idField, g) ==> row[idField := Cell(g.attributes, idField)] in out by {
      forall g | g in features && Hits(row, latCol, lonCol, idField, g) ensures row[idField := Cell(g.attributes, idField)] in out {
        assert g in hits;
        var k :| 0 <= k < |hits| && hits[k] == g;
        assert out[k] == row[idField := Cell(g.attributes, idField)];
      }
    }
    out
  }

  /**
   * `sjoin(points, grid[[id, 'geometry']], how='left', predicate='within')`
   * followed by the `notna()` filter: every observation is paired with each
   * feature strictly containing it; an observation with no such feature only
   * produced a row with a missing id, which the filter removes.
   */
  function SpatialJoin(rows: seq<Row>, features: seq<GridFeature>, latCol: string, lonCol: string, idField: string): (out: seq<Row>)
    ensures forall o :: o in out ==> idField in o && o[idField] != Missing
    ensures forall o :: o in out ==> exists i, g :: (0 <= i < |rows| && g in features
      && Hits(rows[i], latCol, lonCol, idField, g) && o == rows[i][idField := Cell(g.attributes, idField)])
  {
    if rows == [] then []
    else
      var first := JoinRow(rows[0], features, latCol, lonCol, idField);
      var rest := SpatialJoin(rows[1..], features, latCol, lonCol, idField);
      assert forall o :: o in rest ==> exists i, g :: (0 <= i < |rows| && g in features
        && Hits(rows[i], latCol, lonCol, idField, g) && o == rows[i][idField := Cell(g.attributes, idField)]) by {
        forall o | o in rest ensures exists i, g :: (0 <= i < |rows| && g in features
          && Hits(rows[i], latCol, lonCol, idField, g) && o == rows[i][idField := Cell(g.attributes, idField)]) {
          var i, g :| 0 <= i < |rows[1..]| && g in features
            && Hits(rows[1..][i], latCol, lonCol, idField, g) && o == rows[1..][i][idField := Cell(g.attributes, idField)];
          assert rows[i + 1] == rows[1..][i];
        }
      }
      first + rest
  }

  /** A single observation joins to exactly its own stamped rows. */
  lemma SpatialJoinOfOne(row: Row, features: seq<GridFeature>, latCol: string, lonCol: string, idField: string)
    ensures SpatialJoin([row], features, latCol, lonCol, idField) == JoinRow(row, features, latCol, lonCol, idField)
  {
    assert [row][1..] == [];
  }

  /** The join distributes over concatenation: observations are joined one by one, in order. */
  lemma {:induction false} SpatialJoinAppend(a: seq<Row>, b: seq<Row>, features: seq<GridFeature>, latCol: string,
                                             lonCol: string, idField: string)
    ensures SpatialJoin(a + b, features, latCol, lonCol, idField)
      == SpatialJoin(a, features, latCol, lonCol, idField) + SpatialJoin(b, features, latCol, lonCol, idField)
  {
    if a == [] {
      assert a + b == b;
    } else {
      assert (a + b)[0] == a[0] && (a + b)[1..] == a[1..] + b;
      SpatialJoinAppend(a[1..], b, features, latCol, lonCol, idField);
    }
  }

  /** Every hit of every observation is in the join's output: nothing strictly inside a cell is lost. */
  lemma {:induction false} SpatialJoinKeepsHits(rows: seq<Row>, features: seq<GridFeature>, latCol: string, lonCol: string,
                                                idField: string, i: nat, g: GridFeature)
    requires i < |rows| && g in features && Hits(rows[i], latCol, lonCol, idField, g)
    ensures rows[i][idField := Cell(g.attributes, idField)] in SpatialJoin(rows, features, latCol, lonCol, idField)
  {
    var out := SpatialJoin(rows, features, latCol, lonCol, idField);
    var first := JoinRow(rows[0], features, latCol, lonCol, idField);
    var rest := SpatialJoin(rows[1..], features, latCol, lonCol, idField);
    assert out == first + rest;
    if i == 0 {
      assert rows[0][idField := Cell(g.attributes, idField)] in first;
    } else {
      assert rows[1..][i - 1] == rows[i];
      SpatialJoinKeepsHits(rows[1..], features, latCol, lonCol, idField, i - 1, g);
    }
  }

  /** Features whose rectangles never overlap. */
  ghost predicate DisjointFeatures(features: seq<GridFeature>)
  {
    forall i, j :: 0 <= i < j < |features| ==> !InteriorsOverlap(features[i].box, features[j].box)
  }

  /** A point strictly inside two rectangles lies in both interiors, so they overlap. */
  lemma WithinAtMostOne(x: real, y: real, a: Rect, b: Rect)
    requires !InteriorsOverlap(a, b)
    ensures !(Within(x, y, a) && Within(x, y, b))
  {
  }

  /** Over a tiling grid an observation is stamped at most once, so the join never adds rows. */
  lemma {:induction false} SpatialJoinOnTilingAtMostOnce(rows: seq<Row>, features: seq<GridFeature>, latCol: string,
                                                         lonCol: string, idField: string)
    requires DisjointFeatures(features)
    ensures |SpatialJoin(rows, features, latCol, lonCol, idField)| <= |rows|
  {
    if rows != [] {
      var row := rows[0];
      var p := (g: GridFeature) => Hits(row, latCol, lonCol, idField, g);
      forall i, j | 0 <= i < j < |features| && p(features[i]) ensures !p(features[j]) {
        var pt := PointOf(row, latCol, lonCol).value;
        WithinAtMostOne(pt.0, pt.1, features[i].box, features[j].box);
      }
      FilterAtMostOne(features, p);
      SpatialJoinOnTilingAtMostOnce(rows[1..], features, latCol, lonCol, idField);
    }
  }

  /** The rows an observation argument stands for; a path is read with `readCsv`. */
  function LoadObservations(obs: Observations, readCsv: string -> Frame): (r: Result<Frame>)
    ensures r.Err? <==> obs.OtherValue?
    ensures r.Err? ==> r.error == TypeError
    ensures obs.InMemory? ==> r == Ok(obs.frame)
  {
    match obs
    case CsvPath(p) => Ok(readCsv(p))
    case InMemory(f) => Ok(f)
    case OtherValue => Err(TypeError)
  }

  /** The joined frame: the observation columns plus the id column, holding the join's rows. */
  function JoinedFrame(df: Frame, grid: GridLayer, latCol: string, lonCol: string, idField: string): (r: Result<Frame>)
    ensures r.Err? <==> idField in df.columns
    ensures r.Ok? ==> (r.value.columns == df.columns + [idField]
      && r.value.rows == SpatialJoin(df.rows, grid.features, latCol, lonCol, idField))
  {
    // A clashing column is suffixed `_left`/`_right` by the join, so the later lookup of `idField` fails.
    if idField in df.columns then Err(KeyError(Some(idField)))
    else Ok(Frame(df.columns + [idField], SpatialJoin(df.rows, grid.features, latCol, lonCol, idField)))
  }

  /**
   * `assign_grid_cell_ids` (packaged and older copies): check the id field,
   * load the observations, detect the coordinate columns, join and keep the
   * observations that fall strictly inside a cell.
   */
  function AssignGridCellIds(grid: GridLayer, obs: Observations, idField: string, readCsv: string -> Frame): (r: Result<Frame>)
    ensures idField !in grid.columns ==> r == Err(KeyError(Some(idField)))
    ensures idField in grid.columns && obs.OtherValue? ==> r == Err(TypeError)
    ensures r.Ok? ==> obs.OtherValue? == false && LoadObservations(obs, readCsv).Ok?
    ensures r.Ok? ==> var df := LoadObservations(obs, readCsv).value;
      var cols := DetectLatLonColumns(df.columns, DefaultLatPrefix, DefaultLonPrefix);
      && cols.Ok?
      && r.value.columns == df.columns + [idField]
      && forall o :: o in r.value.rows ==> exists i, g :: (0 <= i < |df.rows| && g in grid.features
           && Hits(df.rows[i], cols.value.0, cols.value.1, idField, g) && o == df.rows[i][idField := Cell(g.attributes, idField)])
    ensures idField in grid.columns && LoadObservations(obs, readCsv).Ok? ==>
      var df := LoadObservations(obs, readCsv).value;
      var cols := DetectLatLonColumns(df.columns, DefaultLatPrefix, DefaultLonPrefix);
      && (cols.Err? ==> r == Err(cols.error))
      && (cols.Ok? ==> r == JoinedFrame(df, grid, cols.value.0, cols.value.1, idField))
  {
    if idField !in grid.columns then Err(KeyError(Some(idField)))
    else
      match LoadObservations(obs, readCsv)
      case Err(e) => Err(e)
      case Ok(df) =>
        match DetectLatLonColumns(df.columns, DefaultLatPrefix, DefaultLonPrefix)
        case Err(e) => Err(e)
        case Ok(cols) => JoinedFrame(df, grid, cols.0, cols.1, idField)
  }

  /**
   * The Spanish `assign_grid_cell_ids`: same checks and join, but each
   * coordinate column is the first with its prefix; a missing one is looked up
   * as `None`, which raises `KeyError`.
   */
  function AssignGridCellIdsSpanish(grid: GridLayer, obs: Observations, idField: string, readCsv: string -> Frame): (r: Result<Frame>)
    ensures idField !in grid.columns ==> r == Err(KeyError(Some(idField)))
    ensures idField in grid.columns && obs.OtherValue? ==> r == Err(TypeError)
    ensures r.Ok? ==> LoadObservations(obs, readCsv).Ok?
    ensures r.Ok? ==> var df := LoadObservations(obs, readCsv).value;
      && FirstWithPrefix(df.columns, SpanishLatPrefix).Some?
      && FirstWithPrefix(df.columns, SpanishLonPrefix).Some?
      && r.value.columns == df.columns + [idField]
    ensures LoadObservations(obs, readCsv).Ok? && idField in grid.columns ==>
      var df := LoadObservations(obs, readCsv).value;
      (FirstWithPrefix(df.columns, SpanishLatPrefix).None? || FirstWithPrefix(df.columns, SpanishLonPrefix).None?) ==>
      r == Err(KeyError(None))
    ensures LoadObservations(obs, readCsv).Ok? && idField in grid.columns ==>
      var df := LoadObservations(obs, readCsv).value;
      var lat := FirstWithPrefix(df.columns, SpanishLatPrefix);
      var lon := FirstWithPrefix(df.columns, SpanishLonPrefix);
      lat.Some? && lon.Some? ==> r == JoinedFrame(df, grid, lat.value, lon.value, idField)
  {
    if idField !in grid.columns then Err(KeyError(Some(idField)))
    else
      match LoadObservations(obs, readCsv)
      case Err(e) => Err(e)
      case Ok(df) =>
        var latCol := FirstWithPrefix(df.columns, SpanishLatPrefix);
        var lonCol := FirstWithPrefix(df.columns, SpanishLonPrefix);
        if lonCol.None? || latCol.None? then Err(KeyError(None))
        else JoinedFrame(df, grid, latCol.value, lonCol.value, idField)
  }

  /**
   * Where the detector rejects two latitude candidates, the Spanish
   * `assign_grid_cell_ids` takes the first of them and joins without raising.
   */
  lemma FirstMatchIgnoresAmbiguity(grid: GridLayer, df: Frame, idField: string, readCsv: string -> Frame)
    requires df.columns == ["latitud", "latitude", "longitud"]
    requires idField in grid.columns && idField !in df.columns
    ensures DetectLatLonColumnsSpanish(["latitud", "latitude", "longitud"]) == Err(ValueError(SpanishLatPrefix))
    ensures AssignGridCellIdsSpanish(grid, InMemory(df), idField, readCsv)
      == Ok(Frame(df.columns + [idField], SpatialJoin(df.rows, grid.features, "latitud", "longitud", idField)))
  {
    SpanishFirstMatches();
    SpanishDetectionRejectsBothSpellings();
  }

  lemma SpanishFirstMatches()
    ensures FirstWithPrefix(["latitud", "latitude", "longitud"], SpanishLatPrefix) == Some("latitud")
    ensures FirstWithPrefix(["latitud", "latitude", "longitud"], SpanishLonPrefix) == Some("longitud")
  {
    var cols := ["latitud", "latitude", "longitud"];
    StartsWithIgnoringCaseByChars("latitud", SpanishLatPrefix);
    StartsWithIgnoringCaseByChars("longitud", SpanishLonPrefix);
    NotStartsWithIgnoringCaseAt("latitud", SpanishLonPrefix, 1);
    NotStartsWithIgnoringCaseAt("latitude", SpanishLonPrefix, 1);
    assert cols[1..] == ["latitude", "longitud"] && cols[1..][1..] == ["longitud"];
  }

  /** A point on a shared edge of two cells lies strictly within neither, so it is dropped. */
  lemma EdgePointsAreDropped()
    ensures var row: Row := map["latitude" := Number(0.0), "longitude" := Number(1.0)];
      var features := [GridFeature(map["grid_id" := Number(0.0)], Rect(0.0, 0.0, 1.0, 1.0)),
                       GridFeature(map["grid_id" := Number(1.0)], Rect(1.0, 0.0, 2.0, 1.0))];
      SpatialJoin([row], features, "latitude", "longitude", "grid_id") == []
  {
    var row: Row := map["latitude" := Number(0.0), "longitude" := Number(1.0)];
    var features := [GridFeature(map["grid_id" := Number(0.0)], Rect(0.0, 0.0, 1.0, 1.0)),
                     GridFeature(map["grid_id" := Number(1.0)], Rect(1.0, 0.0, 2.0, 1.0))];
    assert Cell(row, "longitude") == Number(1.0) && Cell(row, "latitude") == Number(0.0);
    assert forall g :: g in features ==> !Hits(row, "latitude", "longitude", "grid_id", g);
    FilterNoneKept(features, (g: GridFeature) => Hits(row, "latitude", "longitude", "grid_id", g));
    assert [row][1..] == [];
  }
}
