/**
 * Richness scoring of the clustered grid (`postprocess_grid.compute_scores`
 * and `postprocess_grid.merge_scores`).
 *
 * Each species column of the counts table is divided by its own maximum,
 * multiplied by a per-species weight and summed across species into a
 * weighted richness per cell. After the cells are joined with their cluster
 * label, each cell's richness is divided by the largest richness within its
 * cluster. The packaged script names the two new columns `weighted_richness`
 * and `richness_score`; the older Spanish script names them
 * `riqueza_ponderada` and `score_riqueza`. Both are the same model with a
 * different `ScoreNames`.
 *
 * Arithmetic follows IEEE doubles on exact reals: NaN is `Missing`, x / 0 is
 * an infinity for x != 0 and NaN for 0 / 0, and pandas' `max` and `sum` skip NaN.
 */
module Scores {
  import opened Tables

  const GridId := "grid_id"
  const MixtureLabel := "GaussianMixture"
  const ClusterColumn := "cluster"

  /** The names of the two columns a copy of the script creates. */
  datatype ScoreNames = ScoreNames(richness: string, score: string)

  const English := ScoreNames("weighted_richness", "richness_score")
  const Spanish := ScoreNames("riqueza_ponderada", "score_riqueza")

  predicate KnownNames(n: ScoreNames)
  {
    n == English || n == Spanish
  }

  // ---------------------------------------------------------------------------
  // Floating-point cells
  // ---------------------------------------------------------------------------

  /** A number pandas can compare: finite or infinite, not NaN and not a string. */
  predicate Numeric(v: Value)
  {
    v.Number? || v.Infinite?
  }

  /** `a > b` on numeric cells, with minus infinity below and plus infinity above every finite value. */
  predicate Greater(a: Value, b: Value)
  {
    match a
    case Number(x) => (b.Number? && x > b.x) || b == Infinite(true)
    case Infinite(negative) => !negative && Numeric(b) && b != Infinite(false)
    case _ => false
  }

  /** `Series.max()`: the largest numeric value, NaN when there is none. */
  function SeqMax(s: seq<Value>): (m: Value)
    ensures m == Missing || Numeric(m)
    ensures m == Missing <==> forall k :: 0 <= k < |s| ==> !Numeric(s[k])
    ensures Numeric(m) ==> m in s
    ensures forall k :: 0 <= k < |s| && Numeric(s[k]) ==> !Greater(s[k], m)
  {
    if s == [] then Missing
    else
      var rest := SeqMax(s[1..]);
      assert forall k :: 1 <= k < |s| ==> s[k] == s[1..][k - 1];
      if !Numeric(s[0]) then rest
      else if rest == Missing || Greater(s[0], rest) then s[0]
      else rest
  }

  /** `a / b` in IEEE arithmetic: NaN in, NaN out; 0 / 0 and inf / inf are NaN; x / 0 is a signed infinity. */
  function Div(a: Value, b: Value): Value
  {
    match (a, b)
    case (Number(x), Number(y)) =>
      if y != 0.0 then Number(x / y)
      else if x == 0.0 then Missing
      else Infinite(x < 0.0)
    case (Number(_), Infinite(_)) => Number(0.0)
    case (Infinite(negative), Number(y)) => Infinite(if y < 0.0 then !negative else negative)
    case _ => Missing
  }

  /** `a * w` for a finite weight `w`: NaN stays NaN and inf * 0 is NaN. */
  function Scale(a: Value, w: real): Value
  {
    match a
    case Number(x) => Number(x * w)
    case Infinite(negative) => if w == 0.0 then Missing else Infinite(if w < 0.0 then !negative else negative)
    case _ => Missing
  }

  /** `a + b` on numeric cells: infinities of opposite sign give NaN. */
  function Plus(a: Value, b: Value): Value
  {
    match (a, b)
    case (Number(x), Number(y)) => Number(x + y)
    case (Number(_), Infinite(_)) => b
    case (Infinite(_), Number(_)) => a
    case (Infinite(p), Infinite(q)) => if p == q then a else Missing
    case _ => Missing
  }

  /** `Series.sum()`: NaN terms are skipped and the empty sum is 0. */
  function SkipNaNSum(s: seq<Value>): (r: Value)
    ensures r == Missing || Numeric(r)
  {
    if s == [] then Number(0.0)
    else if !Numeric(s[0]) then SkipNaNSum(s[1..])
    else Plus(s[0], SkipNaNSum(s[1..]))
  }

  /** Non-negative finite counts, NaN allowed. */
  predicate NonNegative(s: seq<Value>)
  {
    forall k :: 0 <= k < |s| ==> s[k] == Missing || (s[k].Number? && s[k].x >= 0.0)
  }

  /**
   * Dividing a non-negative value by the maximum of its series gives NaN for
   * NaN, NaN when the maximum is 0 (0 / 0), and otherwise a proportion in [0, 1].
   */
  lemma NormaliseBounds(s: seq<Value>, v: Value)
    requires NonNegative(s) && v in s
    ensures v == Missing ==> Div(v, SeqMax(s)) == Missing
    ensures v.Number? && SeqMax(s) == Number(0.0) ==> Div(v, SeqMax(s)) == Missing
    ensures v.Number? && SeqMax(s) != Number(0.0) ==>
      Div(v, SeqMax(s)).Number? && 0.0 <= Div(v, SeqMax(s)).x <= 1.0
  {
    var m := SeqMax(s);
    if v.Number? {
      var k :| 0 <= k < |s| && s[k] == v;
      assert Numeric(s[k]);
      var j :| 0 <= j < |s| && s[j] == m;
      assert m.Number? && m.x >= 0.0 && v.x <= m.x;
      if m.x != 0.0 {
        RatioInUnit(v.x, m.x);
      }
    }
  }

  lemma RatioInUnit(x: real, m: real)
    requires 0.0 <= x <= m && m > 0.0
    ensures 0.0 <= x / m <= 1.0
  {
    var q := x / m;
    assert q * m == x;
    assert (1.0 - q) * m == m - x;
  }

  lemma SelfRatio(x: real)
    requires x != 0.0
    ensures x / x == 1.0
  {
    assert (x / x) * x == x;
    assert (x / x - 1.0) * x == 0.0;
  }

  /** When some value is positive, the value at the maximum is divided into exactly 1. */
  lemma NormaliseReachesOne(s: seq<Value>)
    requires NonNegative(s)
    requires exists k :: 0 <= k < |s| && s[k].Number? && s[k].x > 0.0
    ensures exists k :: 0 <= k < |s| && Div(s[k], SeqMax(s)) == Number(1.0)
  {
    var k :| 0 <= k < |s| && s[k].Number? && s[k].x > 0.0;
    assert Numeric(s[k]);
    var m := SeqMax(s);
    var j :| 0 <= j < |s| && s[j] == m;
    assert m.Number? && m.x >= s[k].x > 0.0;
    SelfRatio(m.x);
  }

  /** A series of zeros and NaN divides into NaN everywhere (0 / 0). */
  lemma NormaliseAllZero(s: seq<Value>)
    requires forall k :: 0 <= k < |s| ==> s[k] == Missing || s[k] == Number(0.0)
    ensures forall k :: 0 <= k < |s| ==> Div(s[k], SeqMax(s)) == Missing
  {
    var m := SeqMax(s);
    if m != Missing {
      var j :| 0 <= j < |s| && s[j] == m;
    }
  }

  function IsNumeric(): Value -> bool
  {
    (v: Value) => Numeric(v)
  }

  /** NaN values do not take part in the maximum: dropping them leaves it unchanged. */
  lemma {:induction false} SeqMaxIgnoresNaN(s: seq<Value>)
    ensures SeqMax(s) == SeqMax(Filter(s, IsNumeric()))
  {
    if s != [] {
      SeqMaxIgnoresNaN(s[1..]);
      if Numeric(s[0]) {
        assert ([s[0]] + Filter(s[1..], IsNumeric()))[1..] == Filter(s[1..], IsNumeric());
      }
    }
  }

  // ---------------------------------------------------------------------------
  // compute_scores
  // ---------------------------------------------------------------------------

  /** The priority list, with `None` read as the empty list. */
  function PriorityList(priority: Option<seq<string>>): seq<string>
  {
    if priority.None? then [] else priority.value
  }

  /** The weight of each species: `float(priority_weight)` for a listed species, 1.0 for the rest. */
  function Weights(species: seq<string>, priority: Option<seq<string>>, weight: int): map<string, real>
  {
    map c | c in species :: if c in PriorityList(priority) then weight as real else 1.0
  }

  /**
   * The weights loop: start every species at 1.0, then give each listed name
   * that is a species column the priority weight; listed names that are not
   * columns are skipped.
   */
  method AssignWeights(species: seq<string>, priority: Option<seq<string>>, weight: int) returns (w: map<string, real>)
    ensures w == Weights(species, priority, weight)
  {
    var listed := if priority.None? then [] else priority.value;
    w := map c | c in species :: 1.0;
    for k := 0 to |listed|
      invariant w.Keys == set c | c in species
      invariant forall c :: c in w ==> w[c] == if c in listed[..k] then weight as real else 1.0
    {
      if listed[k] in w {
        w := w[listed[k] := weight as real];
      }
      assert listed[..k + 1] == listed[..k] + [listed[k]];
    }
    assert listed[..|listed|] == listed;
  }

  /** `max(axis=0)` for one column. */
  function ColumnMax(rows: seq<Row>, c: string): Value
  {
    SeqMax(ColumnValues(rows, c))
  }

  /** A species count divided by the maximum of its column. */
  function Proportion(rows: seq<Row>, i: nat, c: string): Value
    requires i < |rows|
  {
    Div(Cell(rows[i], c), ColumnMax(rows, c))
  }

  /** Count divided by maximum, times weight, position by position. */
  function WeightedTerms(cells: seq<Value>, maxes: seq<Value>, ws: seq<real>): (t: seq<Value>)
    requires |cells| == |maxes| == |ws|
    ensures |t| == |cells|
  {
    seq(|cells|, j requires 0 <= j < |cells| => Scale(Div(cells[j], maxes[j]), ws[j]))
  }

  /** The counts of cell `i`, one per species. */
  function CountsOf(rows: seq<Row>, i: nat, species: seq<string>): (s: seq<Value>)
    requires i < |rows|
    ensures |s| == |species|
  {
    seq(|species|, j requires 0 <= j < |species| => Cell(rows[i], species[j]))
  }

  /** `max(axis=0)`, one per species. */
  function MaximaOf(rows: seq<Row>, species: seq<string>): (s: seq<Value>)
    ensures |s| == |species|
  {
    seq(|species|, j requires 0 <= j < |species| => ColumnMax(rows, species[j]))
  }

  /** The weights, one per species. */
  function WeightsOf(species: seq<string>, weights: map<string, real>): (s: seq<real>)
    requires forall c :: c in species ==> c in weights
    ensures |s| == |species|
  {
    seq(|species|, j requires 0 <= j < |species| => weights[species[j]])
  }

  /** The weighted richness of one cell: the NaN-skipping sum of its weighted proportions. */
  function Richness(rows: seq<Row>, i: nat, species: seq<string>, weights: map<string, real>): Value
    requires i < |rows|
    requires forall c :: c in species ==> c in weights
  {
    SkipNaNSum(WeightedTerms(CountsOf(rows, i, species), MaximaOf(rows, species), WeightsOf(species, weights)))
  }

  /** The species columns: every column but the index `grid_id`. */
  function Species(counts: Frame): seq<string>
  {
    OtherColumns(counts.columns, GridId)
  }

  /** Some species cell holds a string, which makes `max` or the division raise `TypeError`. */
  predicate HasTextCount(counts: Frame)
  {
    exists i, c :: 0 <= i < |counts.rows| && c in Species(counts) && Cell(counts.rows[i], c).Text?
  }

  /**
   * The scores table for given weights: `grid_id` and the weighted richness,
   * one row per counts row, in order. `set_index` raises `KeyError` without
   * a `grid_id` column.
   */
  function ScoresOf(counts: Frame, weights: map<string, real>, n: ScoreNames): (r: Result<Frame>)
    requires KnownNames(n)
    requires forall c :: c in Species(counts) ==> c in weights
    ensures GridId !in counts.columns ==> r == Err(KeyError(Some(GridId)))
    ensures GridId in counts.columns ==> (r.Err? <==> HasTextCount(counts))
    ensures GridId in counts.columns && r.Err? ==> r.error == TypeError
    ensures r.Ok? ==> WellFormed(r.value) && r.value.columns == [GridId, n.richness]
    ensures r.Ok? ==> |r.value.rows| == |counts.rows|
    ensures r.Ok? ==> forall i :: 0 <= i < |counts.rows| ==>
      && r.value.rows[i][GridId] == Cell(counts.rows[i], GridId)
      && r.value.rows[i][n.richness] == Richness(counts.rows, i, Species(counts), weights)
  {
    if GridId !in counts.columns then Err(KeyError(Some(GridId)))
    else if HasTextCount(counts) then Err(TypeError)
    else
      var species := Species(counts);
      Ok(Frame([GridId, n.richness], seq(|counts.rows|, i requires 0 <= i < |counts.rows| =>
        map[GridId := Cell(counts.rows[i], GridId), n.richness := Richness(counts.rows, i, species, weights)])))
  }

  /** `compute_scores`: build the weights with the loop, then score every cell. */
  method ComputeScores(counts: Frame, priority: Option<seq<string>>, weight: int, n: ScoreNames) returns (r: Result<Frame>)
    requires KnownNames(n)
    ensures r == ScoresOf(counts, Weights(Species(counts), priority, weight), n)
  {
    if GridId !in counts.columns {
      return Err(KeyError(Some(GridId)));
    }
    var w := AssignWeights(Species(counts), priority, weight);
    r := ScoresOf(counts, w, n);
  }

  /** With non-negative counts, each proportion is NaN (a NaN count, or an all-zero column) or lies in [0, 1]. */
  lemma ProportionBounds(rows: seq<Row>, i: nat, c: string)
    requires i < |rows|
    requires NonNegative(ColumnValues(rows, c))
    ensures Cell(rows[i], c) == Missing ==> Proportion(rows, i, c) == Missing
    ensures Cell(rows[i], c).Number? && ColumnMax(rows, c) == Number(0.0) ==>
      Proportion(rows, i, c) == Missing
    ensures Cell(rows[i], c).Number? && ColumnMax(rows, c) != Number(0.0) ==>
      Proportion(rows, i, c).Number? && 0.0 <= Proportion(rows, i, c).x <= 1.0
  {
    var s := ColumnValues(rows, c);
    assert s[i] == Cell(rows[i], c);
    NormaliseBounds(s, s[i]);
  }

  /** A column with a positive count has a cell whose proportion is exactly 1. */
  lemma ProportionReachesOne(rows: seq<Row>, c: string)
    requires NonNegative(ColumnValues(rows, c))
    requires exists i :: 0 <= i < |rows| && Cell(rows[i], c).Number? && Cell(rows[i], c).x > 0.0
    ensures exists i :: 0 <= i < |rows| && Proportion(rows, i, c) == Number(1.0)
  {
    var s := ColumnValues(rows, c);
    var i :| 0 <= i < |rows| && Cell(rows[i], c).Number? && Cell(rows[i], c).x > 0.0;
    assert s[i] == Cell(rows[i], c);
    NormaliseReachesOne(s);
    var k :| 0 <= k < |s| && Div(s[k], SeqMax(s)) == Number(1.0);
    assert Proportion(rows, k, c) == Number(1.0);
  }

  /** Σ ws[j] · xs[j] / ms[j] over exact reals. */
  function RealWeightedSum(xs: seq<real>, ms: seq<real>, ws: seq<real>): real
    requires |xs| == |ms| == |ws|
    requires forall j :: 0 <= j < |ms| ==> ms[j] != 0.0
  {
    if xs == [] then 0.0
    else ws[0] * (xs[0] / ms[0]) + RealWeightedSum(xs[1..], ms[1..], ws[1..])
  }

  function Numbers(xs: seq<real>): (s: seq<Value>)
    ensures |s| == |xs|
  {
    seq(|xs|, j requires 0 <= j < |xs| => Number(xs[j]))
  }

  /** On finite values with non-zero maxima, the NaN-skipping sum is the exact weighted sum. */
  lemma {:induction false} SumOfFiniteTerms(xs: seq<real>, ms: seq<real>, ws: seq<real>)
    requires |xs| == |ms| == |ws|
    requires forall j :: 0 <= j < |ms| ==> ms[j] != 0.0
    ensures SkipNaNSum(WeightedTerms(Numbers(xs), Numbers(ms), ws)) == Number(RealWeightedSum(xs, ms, ws))
  {
    if xs != [] {
      SumOfFiniteTerms(xs[1..], ms[1..], ws[1..]);
      var t := WeightedTerms(Numbers(xs), Numbers(ms), ws);
      assert t[1..] == WeightedTerms(Numbers(xs[1..]), Numbers(ms[1..]), ws[1..]);
      assert t[0] == Number(ws[0] * (xs[0] / ms[0]));
    }
  }

  function WeightTotal(ws: seq<real>): real
  {
    if ws == [] then 0.0 else ws[0] + WeightTotal(ws[1..])
  }

  /** With 0 <= xs[j] <= ms[j] and non-negative weights, the weighted sum lies between 0 and the sum of the weights. */
  lemma {:induction false} RealWeightedSumBounds(xs: seq<real>, ms: seq<real>, ws: seq<real>)
    requires |xs| == |ms| == |ws|
    requires forall j :: 0 <= j < |ms| ==> 0.0 <= xs[j] <= ms[j] && ms[j] > 0.0 && ws[j] >= 0.0
    ensures 0.0 <= RealWeightedSum(xs, ms, ws) <= WeightTotal(ws)
  {
    if xs != [] {
      RealWeightedSumBounds(xs[1..], ms[1..], ws[1..]);
      StepBounds(xs[0], ms[0], ws[0], RealWeightedSum(xs[1..], ms[1..], ws[1..]), WeightTotal(ws[1..]));
      assert RealWeightedSum(xs, ms, ws) == ws[0] * (xs[0] / ms[0]) + RealWeightedSum(xs[1..], ms[1..], ws[1..]);
      assert WeightTotal(ws) == ws[0] + WeightTotal(ws[1..]);
    }
  }

  /** One more weighted term keeps the running sum between 0 and the running weight total. */
  lemma StepBounds(x: real, m: real, w: real, rest: real, total: real)
    requires 0.0 <= x <= m && m > 0.0 && w >= 0.0 && 0.0 <= rest <= total
    ensures 0.0 <= w * (x / m) + rest <= w + total
  {
    RatioInUnit(x, m);
    ScaledBelow(w, x / m);
  }

  lemma ScaledBelow(w: real, p: real)
    requires w >= 0.0 && 0.0 <= p <= 1.0
    ensures 0.0 <= w * p <= w
  {
    assert w * (1.0 - p) >= 0.0;
  }

  /** The counts of cell `i` as reals, when all are finite. */
  function CountReals(rows: seq<Row>, i: nat, species: seq<string>): (s: seq<real>)
    requires i < |rows|
    requires forall c :: c in species ==> Cell(rows[i], c).Number?
    ensures |s| == |species|
  {
    seq(|species|, j requires 0 <= j < |species| => Cell(rows[i], species[j]).x)
  }

  /** The column maxima as reals, when all are finite. */
  function MaximumReals(rows: seq<Row>, species: seq<string>): (s: seq<real>)
    requires forall c :: c in species ==> ColumnMax(rows, c).Number?
    ensures |s| == |species|
  {
    seq(|species|, j requires 0 <= j < |species| => ColumnMax(rows, species[j]).x)
  }

  /**
   * `weighted.sum(axis=1)` for a cell whose counts and column maxima are all
   * finite, the maxima non-zero: Σ over species of weight × count / maximum.
   */
  lemma RichnessIsWeightedSum(rows: seq<Row>, i: nat, species: seq<string>, weights: map<string, real>)
    requires i < |rows|
    requires forall c :: c in species ==> c in weights
    requires forall c :: c in species ==> Cell(rows[i], c).Number?
    requires forall c :: c in species ==> ColumnMax(rows, c).Number? && ColumnMax(rows, c).x != 0.0
    ensures Richness(rows, i, species, weights)
      == Number(RealWeightedSum(CountReals(rows, i, species), MaximumReals(rows, species), WeightsOf(species, weights)))
  {
    var xs := CountReals(rows, i, species);
    var ms := MaximumReals(rows, species);
    assert CountsOf(rows, i, species) == Numbers(xs);
    assert MaximaOf(rows, species) == Numbers(ms);
    SumOfFiniteTerms(xs, ms, WeightsOf(species, weights));
  }

  /** The scores table `compute_scores` returns fits `merge_scores`: its two columns, no strings, and unique ids for unique input ids. */
  lemma ScoresFitMerge(counts: Frame, weights: map<string, real>, n: ScoreNames)
    requires KnownNames(n)
    requires forall c :: c in Species(counts) ==> c in weights
    requires ScoresOf(counts, weights, n).Ok?
    ensures var s := ScoresOf(counts, weights, n).value;
      && s.columns == [GridId, n.richness]
      && (forall r :: r in s.rows ==> !Cell(r, n.richness).Text?)
      && (UniqueKey(counts.rows, GridId) ==> UniqueKey(s.rows, GridId))
  {
    var s := ScoresOf(counts, weights, n).value;
    assert forall i :: 0 <= i < |s.rows| ==> GridId in s.rows[i] && n.richness in s.rows[i];
    RichnessNeverText(counts.rows, s.rows, Species(counts), weights, n.richness);
    if UniqueKey(counts.rows, GridId) {
      SameIdsKeepUnique(counts.rows, s.rows);
    }
  }

  /** Rows whose richness cell is the weighted sum of a counts row never hold a string there. */
  lemma RichnessNeverText(rows: seq<Row>, out: seq<Row>, species: seq<string>, weights: map<string, real>, col: string)
    requires |out| == |rows|
    requires forall c :: c in species ==> c in weights
    requires forall i :: 0 <= i < |rows| ==> col in out[i] && out[i][col] == Richness(rows, i, species, weights)
    ensures forall r :: r in out ==> !Cell(r, col).Text?
  {
    forall r | r in out ensures !Cell(r, col).Text? {
      var i :| 0 <= i < |out| && out[i] == r;
    }
  }

  /** Rows carrying the ids of a table with unique ids, position by position, have unique ids too. */
  lemma SameIdsKeepUnique(rows: seq<Row>, out: seq<Row>)
    requires |out| == |rows| && UniqueKey(rows, GridId)
    requires forall i :: 0 <= i < |rows| ==> GridId in out[i] && out[i][GridId] == Cell(rows[i], GridId)
    ensures UniqueKey(out, GridId)
  {
    forall i, j | 0 <= i < j < |out| ensures Cell(out[i], GridId) != Cell(out[j], GridId) {
      assert Cell(out[i], GridId) == Cell(rows[i], GridId);
    }
  }

  // ---------------------------------------------------------------------------
  // merge_scores
  // ---------------------------------------------------------------------------

  /** `notna` on the mixture label. */
  function HasLabel(): Row -> bool
  {
    (r: Row) => Cell(r, MixtureLabel) != Missing
  }

  /** A grid row cut to `grid_id` and its label, renamed `cluster`. */
  function ClusterRow(r: Row): Row
  {
    map[GridId := Cell(r, GridId), ClusterColumn := Cell(r, MixtureLabel)]
  }

  /** `df_calc` before the merge: the labelled grid rows, projected and renamed. */
  function ClusterFrame(grid: Frame): (f: Frame)
    ensures f.columns == [GridId, ClusterColumn]
    ensures |f.rows| == |Filter(grid.rows, HasLabel())|
    ensures forall k :: 0 <= k < |f.rows| ==> f.rows[k] == ClusterRow(Filter(grid.rows, HasLabel())[k])
  {
    var labelled := Filter(grid.rows, HasLabel());
    Frame([GridId, ClusterColumn], seq(|labelled|, k requires 0 <= k < |labelled| => ClusterRow(labelled[k])))
  }

  function CellOf(c: string): Row -> Value
  {
    (r: Row) => Cell(r, c)
  }

  /** The maximum of column `col` over the rows whose cluster is `label`. */
  function GroupMax(rows: seq<Row>, group: Value, col: string): Value
  {
    SeqMax(MapSeq(Filter(rows, KeyIs(ClusterColumn, group)), CellOf(col)))
  }

  /** `transform(lambda x: x / x.max())` on the group of row `k`. */
  function GroupScore(rows: seq<Row>, k: nat, col: string): Value
    requires k < |rows|
  {
    Div(Cell(rows[k], col), GroupMax(rows, Cell(rows[k], ClusterColumn), col))
  }

  /** `calc[['grid_id', score]]` for row `k`. */
  function ScoreRow(rows: seq<Row>, k: nat, n: ScoreNames): Row
    requires k < |rows|
  {
    map[GridId := Cell(rows[k], GridId), n.score := GroupScore(rows, k, n.richness)]
  }

  /**
   * `merge_scores`: keep the labelled cells, join their richness, divide it
   * by the cluster maximum and left-merge the score back onto the whole grid.
   */
  function MergeScores(grid: Frame, scores: Frame, n: ScoreNames): (r: Result<Frame>)
    requires KnownNames(n)
    ensures GridId !in grid.columns ==> r == Err(KeyError(Some(GridId)))
    ensures GridId in grid.columns && MixtureLabel !in grid.columns ==> r == Err(KeyError(Some(MixtureLabel)))
    ensures GridId in grid.columns && MixtureLabel in grid.columns && GridId !in scores.columns ==>
      r == Err(KeyError(Some(GridId)))
    ensures r.Ok? ==> WellFormed(r.value) && |r.value.rows| >= |grid.rows|
  {
    if GridId !in grid.columns then Err(KeyError(Some(GridId)))
    else if MixtureLabel !in grid.columns then Err(KeyError(Some(MixtureLabel)))
    else
      match LeftMerge(ClusterFrame(grid), scores, GridId)
      case Err(e) => Err(e)
      case Ok(joined) =>
        if ClusterColumn !in joined.columns then Err(KeyError(Some(ClusterColumn)))
        else if n.richness !in joined.columns then Err(KeyError(Some(n.richness)))
        else if exists k :: 0 <= k < |joined.rows| && Cell(joined.rows[k], n.richness).Text? then Err(TypeError)
        else LeftMerge(grid, ScoredFrame(joined.rows, n), GridId)
  }

  /** `calc[['grid_id', score]]`: every joined row with its score. */
  function ScoredFrame(rows: seq<Row>, n: ScoreNames): (f: Frame)
    ensures f.columns == [GridId, n.score] && |f.rows| == |rows|
    ensures forall k :: 0 <= k < |rows| ==> f.rows[k] == ScoreRow(rows, k, n)
  {
    Frame([GridId, n.score], seq(|rows|, k requires 0 <= k < |rows| => ScoreRow(rows, k, n)))
  }

  /** The richness the merge gives grid id `g`: that of its scores row, or NaN when there is none. */
  function RichnessOf(scores: seq<Row>, col: string, g: Value): Value
  {
    match Lookup(scores, GridId, g)
    case None => Missing
    case Some(m) => Cell(m, col)
  }

  function RichnessAt(scores: seq<Row>, col: string): Row -> Value
  {
    (r: Row) => RichnessOf(scores, col, Cell(r, GridId))
  }

  /** The richness of every grid cell labelled `label`, in grid order. */
  function ClusterRichness(grid: Frame, scores: Frame, n: ScoreNames, group: Value): seq<Value>
  {
    MapSeq(Filter(grid.rows, KeyIs(MixtureLabel, group)), RichnessAt(scores.rows, n.richness))
  }

  /**
   * The score of a grid cell, stated on the grid itself: NaN without a label,
   * otherwise its richness divided by the largest richness among the cells
   * that share its label.
   */
  function ExpectedScore(grid: Frame, scores: Frame, n: ScoreNames, r: Row): Value
  {
    var group := Cell(r, MixtureLabel);
    if group == Missing then Missing
    else Div(RichnessOf(scores.rows, n.richness, Cell(r, GridId)), SeqMax(ClusterRichness(grid, scores, n, group)))
  }

  /** Filtering keeps a key unique. */
  lemma {:induction false} UniqueKeyFilter(rows: seq<Row>, key: string, p: Row -> bool)
    requires UniqueKey(rows, key)
    ensures UniqueKey(Filter(rows, p), key)
  {
    if rows != [] {
      UniqueKeyFilter(rows[1..], key, p);
      if p(rows[0]) {
        var f := Filter(rows, p);
        var tail := Filter(rows[1..], p);
        assert f == [rows[0]] + tail;
        forall j | 0 < j < |f| ensures Cell(f[0], key) != Cell(f[j], key) {
          assert f[j] in tail;
          var m :| 0 <= m < |rows[1..]| && rows[1..][m] == f[j];
          assert rows[m + 1] == f[j];
        }
      }
    }
  }

  /** Filtering two sequences that agree position by position, then mapping each, gives the same values. */
  lemma {:induction false} FilterMapCorrespond<T(!new), U(!new), V>(a: seq<T>, b: seq<U>, p: T -> bool, q: U -> bool, h: T -> V, j: U -> V)
    requires |a| == |b|
    requires forall k :: 0 <= k < |a| ==> p(a[k]) == q(b[k]) && (p(a[k]) ==> h(a[k]) == j(b[k]))
    ensures MapSeq(Filter(a, p), h) == MapSeq(Filter(b, q), j)
  {
    if a != [] {
      var ta, tb := a[1..], b[1..];
      forall k | 0 <= k < |ta| ensures p(ta[k]) == q(tb[k]) && (p(ta[k]) ==> h(ta[k]) == j(tb[k])) {
        assert ta[k] == a[k + 1] && tb[k] == b[k + 1];
      }
      FilterMapCorrespond(ta, tb, p, q, h, j);
      assert p(a[0]) == q(b[0]);
      if p(a[0]) {
        MapSeqCons(a[0], Filter(ta, p), h);
        MapSeqCons(b[0], Filter(tb, q), j);
      }
    }
  }

  /**
   * `joined` is the merge of the labelled cells with the scores: one row per
   * labelled cell, in order, with its id, its label as `cluster`, and its
   * looked-up richness.
   */
  ghost predicate Joined(grid: Frame, scores: Frame, n: ScoreNames, joined: Frame)
  {
    && |joined.rows| == |Filter(grid.rows, HasLabel())|
    && forall k :: 0 <= k < |joined.rows| ==>
      var l := Filter(grid.rows, HasLabel())[k];
      && Cell(joined.rows[k], GridId) == Cell(l, GridId)
      && Cell(joined.rows[k], ClusterColumn) == Cell(l, MixtureLabel)
      && Cell(joined.rows[k], n.richness) == RichnessOf(scores.rows, n.richness, Cell(l, GridId))
  }

  /** The labelled cells merge with a two-column scores table without suffixes or errors. */
  lemma JoinedIsOk(grid: Frame, scores: Frame, n: ScoreNames)
    requires KnownNames(n)
    requires scores.columns == [GridId, n.richness]
    ensures LeftMerge(ClusterFrame(grid), scores, GridId).Ok?
    ensures LeftMerge(ClusterFrame(grid), scores, GridId).value.columns == [GridId, ClusterColumn, n.richness]
    ensures Overlap(ClusterFrame(grid).columns, scores.columns, GridId) == {}
  {
    var left := ClusterFrame(grid);
    assert Overlap(left.columns, scores.columns, GridId) == {};
    assert OtherColumns(scores.columns, GridId) == [n.richness];
    PlanWithoutOverlap(left.columns, scores.columns, GridId);
    assert Distinct(Labels(MergePlan(left.columns, scores.columns, GridId)));
  }

  /** The merge of the labelled cells with a two-column scores table: one row per labelled cell, richness looked up. */
  lemma CalcFacts(grid: Frame, scores: Frame, n: ScoreNames) returns (joined: Frame)
    requires KnownNames(n)
    requires scores.columns == [GridId, n.richness] && UniqueKey(scores.rows, GridId)
    ensures LeftMerge(ClusterFrame(grid), scores, GridId) == Ok(joined)
    ensures joined.columns == [GridId, ClusterColumn, n.richness]
    ensures Joined(grid, scores, n, joined)
  {
    JoinedIsOk(grid, scores, n);
    joined := LeftMerge(ClusterFrame(grid), scores, GridId).value;
    JoinedLength(grid, scores, n, joined);
    forall k | 0 <= k < |joined.rows|
      ensures var l := Filter(grid.rows, HasLabel())[k];
        && Cell(joined.rows[k], GridId) == Cell(l, GridId)
        && Cell(joined.rows[k], ClusterColumn) == Cell(l, MixtureLabel)
        && Cell(joined.rows[k], n.richness) == RichnessOf(scores.rows, n.richness, Cell(l, GridId))
    {
      JoinedRowFacts(grid, scores, n, joined, k);
    }
  }

  /** The merge has one row per labelled cell. */
  lemma JoinedLength(grid: Frame, scores: Frame, n: ScoreNames, joined: Frame)
    requires UniqueKey(scores.rows, GridId)
    requires LeftMerge(ClusterFrame(grid), scores, GridId) == Ok(joined)
    ensures |joined.rows| == |Filter(grid.rows, HasLabel())|
  {
    LeftMergeLength(ClusterFrame(grid), scores, GridId);
  }

  /** Row `k` of the merge carries the id, label and looked-up richness of the `k`-th labelled cell. */
  lemma JoinedRowFacts(grid: Frame, scores: Frame, n: ScoreNames, joined: Frame, k: nat)
    requires KnownNames(n)
    requires scores.columns == [GridId, n.richness] && UniqueKey(scores.rows, GridId)
    requires LeftMerge(ClusterFrame(grid), scores, GridId) == Ok(joined)
    requires k < |joined.rows|
    ensures k < |Filter(grid.rows, HasLabel())|
    ensures var l := Filter(grid.rows, HasLabel())[k];
      && Cell(joined.rows[k], GridId) == Cell(l, GridId)
      && Cell(joined.rows[k], ClusterColumn) == Cell(l, MixtureLabel)
      && Cell(joined.rows[k], n.richness) == RichnessOf(scores.rows, n.richness, Cell(l, GridId))
  {
    var left := ClusterFrame(grid);
    var labelled := Filter(grid.rows, HasLabel());
    JoinedIsOk(grid, scores, n);
    JoinedLength(grid, scores, n, joined);
    assert left.rows[k] == ClusterRow(labelled[k]);
    LeftMergeLeftCell(left, scores, GridId, k, GridId);
    LeftMergeLeftCell(left, scores, GridId, k, ClusterColumn);
    LeftMergeRightCell(left, scores, GridId, k, n.richness);
  }

  /** Within a cluster, the joined rows carry exactly the richness of the grid cells with that label, in grid order. */
  lemma GroupsMatchClusters(grid: Frame, scores: Frame, n: ScoreNames, joined: Frame, group: Value)
    requires Joined(grid, scores, n, joined)
    requires group != Missing
    ensures GroupMax(joined.rows, group, n.richness) == SeqMax(ClusterRichness(grid, scores, n, group))
  {
    var labelled := Filter(grid.rows, HasLabel());
    var inGroup := KeyIs(MixtureLabel, group);
    FilterMapCorrespond(joined.rows, labelled, KeyIs(ClusterColumn, group), inGroup,
                        CellOf(n.richness), RichnessAt(scores.rows, n.richness));
    FilterFilter(grid.rows, HasLabel(), inGroup);
    FilterCongruent(grid.rows, Both(HasLabel(), inGroup), inGroup);
  }

  /** A looked-up richness is never a string when the scores table holds none. */
  lemma RichnessNotText(scores: seq<Row>, col: string, g: Value)
    requires forall r :: r in scores ==> !Cell(r, col).Text?
    ensures !RichnessOf(scores, col, g).Text?
  {
  }

  /** A scored row holds the id and the group score of its joined row. */
  lemma ScoredCells(rows: seq<Row>, n: ScoreNames)
    requires KnownNames(n)
    ensures forall k :: 0 <= k < |rows| ==>
      && Cell(ScoredFrame(rows, n).rows[k], GridId) == Cell(rows[k], GridId)
      && Cell(ScoredFrame(rows, n).rows[k], n.score) == GroupScore(rows, k, n.richness)
  {
  }

  /** Rows whose keys equal, position by position, those of rows with a unique key have a unique key. */
  lemma UniqueKeyTransfer(rows: seq<Row>, model: seq<Row>, key: string)
    requires |rows| == |model| && UniqueKey(model, key)
    requires forall k :: 0 <= k < |rows| ==> Cell(rows[k], key) == Cell(model[k], key)
    ensures UniqueKey(rows, key)
  {
  }

  /** The scored rows of the labelled cells: no string richness, and one row per grid id. */
  lemma ScoredFacts(grid: Frame, scores: Frame, n: ScoreNames, joined: Frame)
    requires KnownNames(n)
    requires UniqueKey(grid.rows, GridId)
    requires Joined(grid, scores, n, joined)
    requires forall r :: r in scores.rows ==> !Cell(r, n.richness).Text?
    ensures forall k :: 0 <= k < |joined.rows| ==> !Cell(joined.rows[k], n.richness).Text?
    ensures UniqueKey(ScoredFrame(joined.rows, n).rows, GridId)
  {
    var labelled := Filter(grid.rows, HasLabel());
    forall k | 0 <= k < |joined.rows| ensures !Cell(joined.rows[k], n.richness).Text? {
      RichnessNotText(scores.rows, n.richness, Cell(labelled[k], GridId));
    }
    UniqueKeyFilter(grid.rows, GridId, HasLabel());
    var scored := ScoredFrame(joined.rows, n);
    ScoredCells(joined.rows, n);
    UniqueKeyTransfer(scored.rows, labelled, GridId);
  }

  /** Adding one new column keyed by `grid_id` to the grid merges without suffixes or errors. */
  lemma FinalMergeIsOk(grid: Frame, scored: Frame, n: ScoreNames)
    requires KnownNames(n)
    requires Distinct(grid.columns) && GridId in grid.columns && n.score !in grid.columns
    requires scored.columns == [GridId, n.score]
    ensures LeftMerge(grid, scored, GridId).Ok?
    ensures LeftMerge(grid, scored, GridId).value.columns == grid.columns + [n.score]
    ensures Overlap(grid.columns, scored.columns, GridId) == {}
  {
    assert Overlap(grid.columns, scored.columns, GridId) == {};
    assert OtherColumns(scored.columns, GridId) == [n.score];
    PlanWithoutOverlap(grid.columns, scored.columns, GridId);
    var cols := grid.columns + [n.score];
    assert Distinct(cols) by {
      forall a, b | 0 <= a < b < |cols| ensures cols[a] != cols[b] {
        if b == |grid.columns| {
          assert cols[a] in grid.columns;
        }
      }
    }
  }

  /** A grid cell without a label has no scored row. */
  lemma UnlabelledLookup(grid: Frame, i: nat, scored: seq<Row>, labelled: seq<Row>)
    requires i < |grid.rows| && UniqueKey(grid.rows, GridId)
    requires labelled == Filter(grid.rows, HasLabel())
    requires Cell(grid.rows[i], MixtureLabel) == Missing
    requires |scored| == |labelled|
    requires forall k :: 0 <= k < |scored| ==> Cell(scored[k], GridId) == Cell(labelled[k], GridId)
    ensures Lookup(scored, GridId, Cell(grid.rows[i], GridId)) == None
  {
    forall r | r in scored ensures Cell(r, GridId) != Cell(grid.rows[i], GridId) {
      var k :| 0 <= k < |scored| && scored[k] == r;
      assert labelled[k] in labelled;
      var m :| 0 <= m < |grid.rows| && grid.rows[m] == labelled[k];
      assert m != i;
    }
  }

  /** A labelled grid cell finds the scored row of its own position among the labelled cells. */
  lemma LabelledLookup(grid: Frame, i: nat, scored: seq<Row>, labelled: seq<Row>) returns (k: nat)
    requires i < |grid.rows|
    requires labelled == Filter(grid.rows, HasLabel())
    requires Cell(grid.rows[i], MixtureLabel) != Missing
    requires |scored| == |labelled| && UniqueKey(scored, GridId)
    requires forall k :: 0 <= k < |scored| ==> Cell(scored[k], GridId) == Cell(labelled[k], GridId)
    ensures k < |labelled| && labelled[k] == grid.rows[i]
    ensures Lookup(scored, GridId, Cell(grid.rows[i], GridId)) == Some(scored[k])
  {
    assert grid.rows[i] in labelled;
    k :| 0 <= k < |labelled| && labelled[k] == grid.rows[i];
    var m := Lookup(scored, GridId, Cell(grid.rows[i], GridId));
    assert scored[k] in scored;
    var k' :| 0 <= k' < |scored| && scored[k'] == m.value;
    assert k' == k;
  }

  /** The score the final merge gives grid row `i`: NaN without a label. */
  lemma UnlabelledScore(grid: Frame, scores: Frame, n: ScoreNames, joined: Frame, i: nat)
    requires KnownNames(n)
    requires i < |grid.rows| && UniqueKey(grid.rows, GridId)
    requires Joined(grid, scores, n, joined)
    requires Cell(grid.rows[i], MixtureLabel) == Missing
    ensures Take(FromRight(n.score), grid.rows[i], Lookup(ScoredFrame(joined.rows, n).rows, GridId, Cell(grid.rows[i], GridId)))
         == ExpectedScore(grid, scores, n, grid.rows[i])
  {
    var labelled := Filter(grid.rows, HasLabel());
    var scored := ScoredFrame(joined.rows, n).rows;
    ScoredCells(joined.rows, n);
    UnlabelledLookup(grid, i, scored, labelled);
  }

  /** The score the final merge gives labelled grid row `i`: its richness over its cluster's maximum. */
  lemma LabelledScore(grid: Frame, scores: Frame, n: ScoreNames, joined: Frame, i: nat)
    requires KnownNames(n)
    requires i < |grid.rows|
    requires Joined(grid, scores, n, joined)
    requires UniqueKey(ScoredFrame(joined.rows, n).rows, GridId)
    requires Cell(grid.rows[i], MixtureLabel) != Missing
    ensures Take(FromRight(n.score), grid.rows[i], Lookup(ScoredFrame(joined.rows, n).rows, GridId, Cell(grid.rows[i], GridId)))
         == ExpectedScore(grid, scores, n, grid.rows[i])
  {
    var labelled := Filter(grid.rows, HasLabel());
    var scored := ScoredFrame(joined.rows, n).rows;
    ScoredCells(joined.rows, n);
    var group := Cell(grid.rows[i], MixtureLabel);
    var k := LabelledLookup(grid, i, scored, labelled);
    assert Cell(joined.rows[k], ClusterColumn) == group;
    GroupsMatchClusters(grid, scores, n, joined, group);
  }

  /** `merge_scores` returns the final merge of the grid with the scored rows of the labelled cells. */
  lemma MergeScoresIsFinalMerge(grid: Frame, scores: Frame, n: ScoreNames) returns (joined: Frame)
    requires KnownNames(n)
    requires GridId in grid.columns && MixtureLabel in grid.columns
    requires UniqueKey(grid.rows, GridId)
    requires scores.columns == [GridId, n.richness] && UniqueKey(scores.rows, GridId)
    requires forall r :: r in scores.rows ==> !Cell(r, n.richness).Text?
    ensures Joined(grid, scores, n, joined)
    ensures UniqueKey(ScoredFrame(joined.rows, n).rows, GridId)
    ensures MergeScores(grid, scores, n) == LeftMerge(grid, ScoredFrame(joined.rows, n), GridId)
  {
    joined := CalcFacts(grid, scores, n);
    ScoredFacts(grid, scores, n, joined);
  }

  /**
   * `merge_scores` on a grid with unique ids and a scores table as
   * `compute_scores` builds it: every grid row is kept, in order, with its
   * columns unchanged, and exactly one column is added, holding each cell's
   * `ExpectedScore` (NaN for cells without a label).
   */
  lemma MergeScoresSpec(grid: Frame, scores: Frame, n: ScoreNames)
    requires KnownNames(n)
    requires Distinct(grid.columns) && GridId in grid.columns && MixtureLabel in grid.columns && n.score !in grid.columns
    requires UniqueKey(grid.rows, GridId)
    requires scores.columns == [GridId, n.richness] && UniqueKey(scores.rows, GridId)
    requires forall r :: r in scores.rows ==> !Cell(r, n.richness).Text?
    ensures MergeScores(grid, scores, n).Ok?
    ensures var out := MergeScores(grid, scores, n).value;
      && out.columns == grid.columns + [n.score]
      && |out.rows| == |grid.rows|
      && (forall i, c :: 0 <= i < |grid.rows| && c in grid.columns ==> Cell(out.rows[i], c) == Cell(grid.rows[i], c))
      && (forall i :: 0 <= i < |grid.rows| ==> Cell(out.rows[i], n.score) == ExpectedScore(grid, scores, n, grid.rows[i]))
  {
    var joined := MergeScoresIsFinalMerge(grid, scores, n);
    var scored := ScoredFrame(joined.rows, n);
    FinalMergeIsOk(grid, scored, n);
    var out := MergeScores(grid, scores, n).value;
    LeftMergeLength(grid, scored, GridId);
    forall i, c | 0 <= i < |grid.rows| && c in grid.columns
      ensures Cell(out.rows[i], c) == Cell(grid.rows[i], c)
    {
      LeftMergeLeftCell(grid, scored, GridId, i, c);
    }
    forall i | 0 <= i < |grid.rows|
      ensures Cell(out.rows[i], n.score) == ExpectedScore(grid, scores, n, grid.rows[i])
    {
      LeftMergeRightCell(grid, scored, GridId, i, n.score);
      if Cell(grid.rows[i], MixtureLabel) == Missing {
        UnlabelledScore(grid, scores, n, joined, i);
      } else {
        LabelledScore(grid, scores, n, joined, i);
      }
    }
  }

  /** Every grid row's looked-up score is its expected score. */
  lemma ScoresOfAllRows(grid: Frame, scores: Frame, n: ScoreNames, joined: Frame)
    requires KnownNames(n)
    requires UniqueKey(grid.rows, GridId)
    requires Joined(grid, scores, n, joined)
    requires UniqueKey(ScoredFrame(joined.rows, n).rows, GridId)
    ensures forall i :: 0 <= i < |grid.rows| ==>
      Take(FromRight(n.score), grid.rows[i], Lookup(ScoredFrame(joined.rows, n).rows, GridId, Cell(grid.rows[i], GridId)))
        == ExpectedScore(grid, scores, n, grid.rows[i])
  {
    forall i | 0 <= i < |grid.rows|
      ensures Take(FromRight(n.score), grid.rows[i], Lookup(ScoredFrame(joined.rows, n).rows, GridId, Cell(grid.rows[i], GridId)))
        == ExpectedScore(grid, scores, n, grid.rows[i])
    {
      if Cell(grid.rows[i], MixtureLabel) == Missing {
        UnlabelledScore(grid, scores, n, joined, i);
      } else {
        LabelledScore(grid, scores, n, joined, i);
      }
    }
  }

  /** A grid row with label `group` has its richness at some position of the cluster's richness sequence. */
  lemma InCluster(grid: Frame, scores: Frame, n: ScoreNames, group: Value, i: nat) returns (k: nat)
    requires i < |grid.rows| && Cell(grid.rows[i], MixtureLabel) == group
    ensures k < |ClusterRichness(grid, scores, n, group)|
    ensures ClusterRichness(grid, scores, n, group)[k] == RichnessOf(scores.rows, n.richness, Cell(grid.rows[i], GridId))
  {
    var f := Filter(grid.rows, KeyIs(MixtureLabel, group));
    assert grid.rows[i] in f;
    k :| 0 <= k < |f| && f[k] == grid.rows[i];
  }

  /** A cluster with non-negative richness scores every member NaN or within [0, 1]. */
  lemma ClusterScoreBounds(grid: Frame, scores: Frame, n: ScoreNames, group: Value)
    requires group != Missing
    requires NonNegative(ClusterRichness(grid, scores, n, group))
    ensures forall i :: 0 <= i < |grid.rows| && Cell(grid.rows[i], MixtureLabel) == group ==>
      var score := ExpectedScore(grid, scores, n, grid.rows[i]);
      score == Missing || (score.Number? && 0.0 <= score.x <= 1.0)
  {
    var s := ClusterRichness(grid, scores, n, group);
    forall i | 0 <= i < |grid.rows| && Cell(grid.rows[i], MixtureLabel) == group
      ensures var score := ExpectedScore(grid, scores, n, grid.rows[i]);
        score == Missing || (score.Number? && 0.0 <= score.x <= 1.0)
    {
      var k := InCluster(grid, scores, n, group, i);
      NormaliseBounds(s, s[k]);
    }
  }

  /** The member of cluster `group` at position `k` of its richness sequence, and its score. */
  lemma ClusterMember(grid: Frame, scores: Frame, n: ScoreNames, group: Value, k: nat) returns (i: nat)
    requires group != Missing
    requires k < |ClusterRichness(grid, scores, n, group)|
    ensures i < |grid.rows| && Cell(grid.rows[i], MixtureLabel) == group
    ensures var s := ClusterRichness(grid, scores, n, group);
      ExpectedScore(grid, scores, n, grid.rows[i]) == Div(s[k], SeqMax(s))
  {
    var f := Filter(grid.rows, KeyIs(MixtureLabel, group));
    assert f[k] in f;
    i :| 0 <= i < |grid.rows| && grid.rows[i] == f[k];
  }

  /** A cluster with a positive richness has a member scored exactly 1. */
  lemma ClusterScoreReachesOne(grid: Frame, scores: Frame, n: ScoreNames, group: Value)
    requires group != Missing
    requires NonNegative(ClusterRichness(grid, scores, n, group))
    requires exists k :: 0 <= k < |ClusterRichness(grid, scores, n, group)| &&
                         ClusterRichness(grid, scores, n, group)[k].Number? &&
                         ClusterRichness(grid, scores, n, group)[k].x > 0.0
    ensures exists i :: 0 <= i < |grid.rows| && Cell(grid.rows[i], MixtureLabel) == group &&
                        ExpectedScore(grid, scores, n, grid.rows[i]) == Number(1.0)
  {
    var s := ClusterRichness(grid, scores, n, group);
    NormaliseReachesOne(s);
    var k :| 0 <= k < |s| && Div(s[k], SeqMax(s)) == Number(1.0);
    var i := ClusterMember(grid, scores, n, group, k);
  }

  /** A cluster whose richness is all zero (or NaN) scores every member NaN: 0 / 0. */
  lemma AllZeroClusterIsNaN(grid: Frame, scores: Frame, n: ScoreNames, group: Value)
    requires group != Missing
    requires forall v :: v in ClusterRichness(grid, scores, n, group) ==> v == Missing || v == Number(0.0)
    ensures forall i :: 0 <= i < |grid.rows| && Cell(grid.rows[i], MixtureLabel) == group ==>
      ExpectedScore(grid, scores, n, grid.rows[i]) == Missing
  {
    var s := ClusterRichness(grid, scores, n, group);
    assert forall k :: 0 <= k < |s| ==> s[k] in s;
    NormaliseAllZero(s);
    forall i | 0 <= i < |grid.rows| && Cell(grid.rows[i], MixtureLabel) == group
      ensures ExpectedScore(grid, scores, n, grid.rows[i]) == Missing
    {
      var k := InCluster(grid, scores, n, group, i);
    }
  }

  /**
   * A clustered cell with no counts row gets NaN richness from the left
   * merge and hence a NaN score; NaN richness takes no part in its cluster's
   * maximum.
   */
  lemma UncountedCellIsNaN(grid: Frame, scores: Frame, n: ScoreNames, i: nat)
    requires i < |grid.rows|
    requires forall r :: r in scores.rows ==> Cell(r, GridId) != Cell(grid.rows[i], GridId)
    ensures RichnessOf(scores.rows, n.richness, Cell(grid.rows[i], GridId)) == Missing
    ensures ExpectedScore(grid, scores, n, grid.rows[i]) == Missing
    ensures Cell(grid.rows[i], MixtureLabel) != Missing ==>
      var s := ClusterRichness(grid, scores, n, Cell(grid.rows[i], MixtureLabel));
      SeqMax(s) == SeqMax(Filter(s, IsNumeric()))
  {
    if Cell(grid.rows[i], MixtureLabel) != Missing {
      SeqMaxIgnoresNaN(ClusterRichness(grid, scores, n, Cell(grid.rows[i], MixtureLabel)));
    }
  }
}
