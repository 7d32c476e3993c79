/**
 * Shared vocabulary of the pipeline: optional values, results carrying the
 * exceptions the scripts raise, the cell values of a data frame, data frames
 * themselves, and the generic sequence operations (filtering, counting,
 * de-duplication) that pandas masks, `value_counts` and `pivot_table` are
 * built from.
 */
module Tables {

  datatype Option<+T> = None | Some(value: T)

  /** The Python exceptions the modelled functions raise. */
  datatype Error =
    | KeyError(key: Option<string>)     // a column or field that is not there
    | ValueError(detail: string)        // a column that is ambiguous or not found by prefix
    | TypeError                         // an argument or a cell value of the wrong kind
    | LengthMismatch                    // a DataFrame built from columns of different lengths
    | SystemExit(code: int)             // the script stops itself with `sys.exit(code)`

  datatype Result<+T> = Ok(value: T) | Err(error: Error)

  /** One cell of a DataFrame: a string, a finite number, an infinity, or pandas' NaN / None (`Missing`). */
  datatype Value = Text(s: string) | Number(x: real) | Infinite(negative: bool) | Missing

  type Row = map<string, Value>

  /** A DataFrame: ordered column labels and rows keyed by label. */
  datatype Frame = Frame(columns: seq<string>, rows: seq<Row>)

  predicate Distinct<T(==)>(s: seq<T>)
  {
    forall i, j :: 0 <= i < j < |s| ==> s[i] != s[j]
  }

  /** Every row holds a value for exactly the frame's (distinct) columns. */
  ghost predicate WellFormed(f: Frame)
  {
    && Distinct(f.columns)
    && forall i :: 0 <= i < |f.rows| ==> f.rows[i].Keys == set c | c in f.columns
  }

  /** The value in column `c` of `r`, or `Missing` when the row has no such key. */
  function Cell(r: Row, c: string): Value
  {
    if c in r then r[c] else Missing
  }

  /** `v < c` on a numeric cell: NaN compares false, minus infinity true, plus infinity false. */
  predicate LessThan(v: Value, c: real)
  {
    match v
    case Number(x) => x < c
    case Infinite(negative) => negative
    case _ => false
  }

  /** The values of column `c`, one per row, `Missing` where a row lacks it. */
  function ColumnValues(rows: seq<Row>, c: string): (s: seq<Value>)
    ensures |s| == |rows|
    ensures forall i :: 0 <= i < |rows| ==> s[i] == Cell(rows[i], c)
  {
    if rows == [] then [] else [Cell(rows[0], c)] + ColumnValues(rows[1..], c)
  }

  // ---------------------------------------------------------------------------
  // Filtering (pandas boolean masks)
  // ---------------------------------------------------------------------------

  /** The elements of `s` that satisfy `p`, in their original order, each as often as in `s`. */
  function Filter<T(!new)>(s: seq<T>, p: T -> bool): (r: seq<T>)
    ensures |r| <= |s|
    ensures forall x :: x in r <==> x in s && p(x)
    ensures forall x :: Occurrences(r, x) == if p(x) then Occurrences(s, x) else 0
  {
    if s == [] then []
    else
      var rest := Filter(s[1..], p);
      if p(s[0]) then
        assert ([s[0]] + rest)[1..] == rest;
        [s[0]] + rest
      else rest
  }

  /** `a` is `b` with some elements deleted: an order-preserving selection. */
  ghost predicate IsSubsequence<T>(a: seq<T>, b: seq<T>)
    decreases |b|
  {
    if a == [] then true
    else if b == [] then false
    else if a[0] == b[0] then IsSubsequence(a[1..], b[1..])
    else IsSubsequence(a, b[1..])
  }

  lemma {:induction false} FilterIsSubsequence<T(!new)>(s: seq<T>, p: T -> bool)
    ensures IsSubsequence(Filter(s, p), s)
  {
    if s != [] {
      FilterIsSubsequence(s[1..], p);
      var rest := Filter(s[1..], p);
      if !p(s[0]) && rest != [] {
        assert rest[0] in rest;
      }
    }
  }

  /** When no two positions both satisfy `p`, at most one element survives the filter. */
  lemma {:induction false} FilterAtMostOne<T(!new)>(s: seq<T>, p: T -> bool)
    requires forall i, j :: 0 <= i < j < |s| && p(s[i]) ==> !p(s[j])
    ensures |Filter(s, p)| <= 1
  {
    if s != [] {
      var tail := s[1..];
      FilterAtMostOne(tail, p);
      if p(s[0]) {
        assert forall x :: x in tail ==> !p(x) by {
          forall x | x in tail ensures !p(x) {
            var k :| 0 <= k < |tail| && tail[k] == x;
            assert s[k + 1] == x;
          }
        }
        FilterNoneKept(tail, p);
      }
    }
  }

  /** Filtering on a predicate no element satisfies leaves nothing. */
  lemma {:induction false} FilterNoneKept<T(!new)>(s: seq<T>, p: T -> bool)
    requires forall x :: x in s ==> !p(x)
    ensures Filter(s, p) == []
  {
    if s != [] {
      assert forall x :: x in s[1..] ==> x in s;
      FilterNoneKept(s[1..], p);
    }
  }

  /** Filtering on a predicate that every element already satisfies changes nothing. */
  lemma {:induction false} FilterAllKept<T(!new)>(s: seq<T>, p: T -> bool)
    requires forall x :: x in s ==> p(x)
    ensures Filter(s, p) == s
  {
    if s != [] {
      assert s == [s[0]] + s[1..];
      FilterAllKept(s[1..], p);
    }
  }

  /** Two predicates that agree on the elements of `s` select the same elements. */
  lemma {:induction false} FilterCongruent<T(!new)>(s: seq<T>, p: T -> bool, q: T -> bool)
    requires forall x :: x in s ==> p(x) == q(x)
    ensures Filter(s, p) == Filter(s, q)
  {
    if s != [] {
      FilterCongruent(s[1..], p, q);
    }
  }

  // ---------------------------------------------------------------------------
  // Counting and de-duplication
  // ---------------------------------------------------------------------------

  /** Number of occurrences of `v` in `s`. */
  function Occurrences<T(==)>(s: seq<T>, v: T): (n: nat)
    ensures n <= |s|
    ensures n > 0 <==> v in s
  {
    if s == [] then 0
    else (if s[0] == v then 1 else 0) + Occurrences(s[1..], v)
  }

  lemma {:induction false} OccurrencesOfDistinct<T>(s: seq<T>, v: T)
    requires Distinct(s)
    ensures Occurrences(s, v) == if v in s then 1 else 0
  {
    if s != [] {
      OccurrencesOfDistinct(s[1..], v);
      if s[0] == v {
        assert v !in s[1..] by {
          forall k | 0 <= k < |s[1..]| ensures s[1..][k] != v {
            assert s[0] != s[k + 1];
          }
        }
      }
    }
  }

  /** The distinct elements of `s`, in order of first occurrence. */
  function Dedup<T(==,!new)>(s: seq<T>): (r: seq<T>)
    ensures Distinct(r)
    ensures forall x :: x in r <==> x in s
    ensures |r| <= |s|
  {
    if s == [] then []
    else
      var t := Dedup(s[..|s| - 1]);
      assert forall x :: x in s <==> x in s[..|s| - 1] || x == s[|s| - 1] by {
        assert s == s[..|s| - 1] + [s[|s| - 1]];
      }
      if s[|s| - 1] in t then t else t + [s[|s| - 1]]
  }

  // ---------------------------------------------------------------------------
  // Column selection
  // ---------------------------------------------------------------------------

  /** A row cut down to the listed columns. */
  function RestrictRow(r: Row, cols: seq<string>): (p: Row)
    ensures p.Keys == set c | c in cols
    ensures forall c :: c in cols ==> p[c] == Cell(r, c)
  {
    map c | c in cols :: Cell(r, c)
  }

  /** `df[cols]`: the listed columns in the listed order, or `KeyError` naming the first absent one. */
  function Project(f: Frame, cols: seq<string>): (r: Result<Frame>)
    ensures r.Err? <==> exists c :: c in cols && c !in f.columns
    ensures r.Err? ==> (r.error.KeyError? && r.error.key.Some?
      && r.error.key.value in cols && r.error.key.value !in f.columns)
    ensures r.Ok? ==> r.value.columns == cols && |r.value.rows| == |f.rows|
    ensures r.Ok? ==> forall i :: 0 <= i < |f.rows| ==> r.value.rows[i] == RestrictRow(f.rows[i], cols)
    ensures r.Ok? && Distinct(cols) ==> WellFormed(r.value)
  {
    var missing := Filter(cols, (c: string) => c !in f.columns);
    if missing != [] then
      assert missing[0] in missing;
      Err(KeyError(Some(missing[0])))
    else
      Ok(Frame(cols, seq(|f.rows|, i requires 0 <= i < |f.rows| => RestrictRow(f.rows[i], cols))))
  }

  /** Both predicates at once. */
  function Both<T>(p: T -> bool, q: T -> bool): T -> bool
  {
    (x: T) => p(x) && q(x)
  }

  /** Two masks applied one after the other select what their conjunction selects. */
  lemma {:induction false} FilterFilter<T(!new)>(s: seq<T>, p: T -> bool, q: T -> bool)
    ensures Filter(Filter(s, p), q) == Filter(s, Both(p, q))
  {
    if s != [] {
      FilterFilter(s[1..], p, q);
      if p(s[0]) {
        assert ([s[0]] + Filter(s[1..], p))[1..] == Filter(s[1..], p);
      }
    }
  }

  /** A filter keeps distinct elements distinct. */
  lemma {:induction false} FilterDistinct<T(!new)>(s: seq<T>, p: T -> bool)
    requires Distinct(s)
    ensures Distinct(Filter(s, p))
  {
    if s != [] {
      FilterDistinct(s[1..], p);
      if p(s[0]) {
        var rest := Filter(s[1..], p);
        forall k | 0 <= k < |rest| ensures rest[k] != s[0] {
          assert rest[k] in rest;
          var m :| 0 <= m < |s[1..]| && s[1..][m] == rest[k];
          assert s[m + 1] == rest[k];
        }
      }
    }
  }

  // ---------------------------------------------------------------------------
  // Summing counts
  // ---------------------------------------------------------------------------

  /** The sum, over the labels, of how often each occurs in `s`. */
  function SumOfCounts<T(==)>(s: seq<T>, labels: seq<T>): nat
  {
    if labels == [] then 0 else Occurrences(s, labels[0]) + SumOfCounts(s, labels[1..])
  }

  lemma {:induction false} SumOfCountsSplit<T>(s: seq<T>, labels: seq<T>)
    requires s != []
    ensures SumOfCounts(s, labels) == Occurrences(labels, s[0]) + SumOfCounts(s[1..], labels)
  {
    if labels != [] {
      SumOfCountsSplit(s, labels[1..]);
    }
  }

  lemma {:induction false} SumOfCountsOfEmpty<T>(labels: seq<T>)
    ensures SumOfCounts([], labels) == 0
  {
    if labels != [] {
      SumOfCountsOfEmpty(labels[1..]);
    }
  }

  /** Counting every element under distinct labels that cover them all counts each element exactly once. */
  lemma {:induction false} SumOfCountsCoversAll<T>(s: seq<T>, labels: seq<T>)
    requires Distinct(labels)
    requires forall x :: x in s ==> x in labels
    ensures SumOfCounts(s, labels) == |s|
  {
    if s == [] {
      SumOfCountsOfEmpty(labels);
    } else {
      SumOfCountsSplit(s, labels);
      OccurrencesOfDistinct(labels, s[0]);
      assert forall x :: x in s[1..] ==> x in s;
      SumOfCountsCoversAll(s[1..], labels);
    }
  }

  // ---------------------------------------------------------------------------
  // Merging (pandas `merge(..., on=key, how='left')`)
  // ---------------------------------------------------------------------------

  /** Where a column of a merged frame takes its values from. */
  datatype Side = FromLeft(col: string) | FromRight(col: string)

  /** A frame's columns other than the merge key, in order. */
  function OtherColumns(cols: seq<string>, key: string): (r: seq<string>)
    ensures |r| <= |cols|
    ensures forall c :: c in r <==> c in cols && c != key
  {
    if cols == [] then []
    else (if cols[0] == key then [] else [cols[0]]) + OtherColumns(cols[1..], key)
  }

  /** Removing a key that is not there changes nothing. */
  lemma {:induction false} OtherColumnsWithoutKey(cols: seq<string>, key: string)
    requires key !in cols
    ensures OtherColumns(cols, key) == cols
  {
    if cols != [] {
      OtherColumnsWithoutKey(cols[1..], key);
    }
  }

  /** Non-key columns both frames carry: the merge renames them with a `_x` and a `_y` suffix. */
  function Overlap(left: seq<string>, right: seq<string>, key: string): set<string>
  {
    set c | c in left && c in right && c != key
  }

  function Suffixed(c: string, overlap: set<string>, suffix: string): string
  {
    if c in overlap then c + suffix else c
  }

  /** The merged frame's columns in order, each paired with the column it is read from. */
  function MergePlan(left: seq<string>, right: seq<string>, key: string): (plan: seq<(string, Side)>)
    ensures |plan| == |left| + |OtherColumns(right, key)|
  {
    var o := Overlap(left, right, key);
    var others := OtherColumns(right, key);
    seq(|left|, j requires 0 <= j < |left| => (Suffixed(left[j], o, "_x"), FromLeft(left[j])))
    + seq(|others|, j requires 0 <= j < |others| => (Suffixed(others[j], o, "_y"), FromRight(others[j])))
  }

  function Labels(plan: seq<(string, Side)>): (cols: seq<string>)
    ensures |cols| == |plan|
    ensures forall j :: 0 <= j < |plan| ==> cols[j] == plan[j].0
  {
    seq(|plan|, j requires 0 <= j < |plan| => plan[j].0)
  }

  /** The value a merged column takes for left row `l` and its match `m`; no match gives NaN on the right. */
  function Take(side: Side, l: Row, m: Option<Row>): Value
  {
    match side
    case FromLeft(c) => Cell(l, c)
    case FromRight(c) => if m.Some? then Cell(m.value, c) else Missing
  }

  /** The merged row for left row `l` and match `m`: one entry per planned column. */
  function Fill(plan: seq<(string, Side)>, l: Row, m: Option<Row>): (r: Row)
    ensures r.Keys == set c | c in Labels(plan)
    ensures Distinct(Labels(plan)) ==> forall j :: 0 <= j < |plan| ==> r[plan[j].0] == Take(plan[j].1, l, m)
    decreases |plan|
  {
    if plan == [] then map[]
    else
      var n := |plan| - 1;
      var init := plan[..n];
      assert Labels(plan) == Labels(init) + [plan[n].0];
      Fill(init, l, m)[plan[n].0 := Take(plan[n].1, l, m)]
  }

  /** The right rows whose key equals `v` (a NaN key matches a NaN key, as in pandas). */
  function KeyIs(key: string, v: Value): Row -> bool
  {
    (r: Row) => Cell(r, key) == v
  }

  function Matches(right: seq<Row>, key: string, v: Value): (ms: seq<Row>)
    ensures forall r :: r in ms <==> r in right && Cell(r, key) == v
  {
    Filter(right, KeyIs(key, v))
  }

  /** The merged rows of one left row: one per match, or a single one with NaN right columns. */
  function RowsFor(plan: seq<(string, Side)>, l: Row, ms: seq<Row>): (out: seq<Row>)
    ensures |out| == if ms == [] then 1 else |ms|
    ensures forall k :: 0 <= k < |out| ==> out[k].Keys == set c | c in Labels(plan)
  {
    if ms == [] then [Fill(plan, l, None)]
    else seq(|ms|, k requires 0 <= k < |ms| => Fill(plan, l, Some(ms[k])))
  }

  /** The rows of a left merge: the left rows in order, each expanded into its merged rows. */
  function MergeRows(plan: seq<(string, Side)>, left: seq<Row>, right: seq<Row>, key: string): (out: seq<Row>)
    ensures |out| >= |left|
    ensures forall k :: 0 <= k < |out| ==> out[k].Keys == set c | c in Labels(plan)
  {
    if left == [] then []
    else RowsFor(plan, left[0], Matches(right, key, Cell(left[0], key))) + MergeRows(plan, left[1..], right, key)
  }

  /** No two rows share a value in column `key`. */
  predicate UniqueKey(rows: seq<Row>, key: string)
  {
    forall i, j :: 0 <= i < j < |rows| ==> Cell(rows[i], key) != Cell(rows[j], key)
  }

  /** The right row the merge pairs with key value `v`, if any. */
  function Lookup(right: seq<Row>, key: string, v: Value): (m: Option<Row>)
    ensures m.None? <==> forall r :: r in right ==> Cell(r, key) != v
    ensures m.Some? ==> m.value in right && Cell(m.value, key) == v
  {
    var ms := Matches(right, key, v);
    if ms == [] then None
    else
      assert ms[0] in ms;
      Some(ms[0])
  }

  /** With a unique right key, a left row has at most one match and yields one merged row. */
  lemma RowsForUniqueKey(plan: seq<(string, Side)>, l: Row, right: seq<Row>, key: string)
    requires UniqueKey(right, key)
    ensures RowsFor(plan, l, Matches(right, key, Cell(l, key))) == [Fill(plan, l, Lookup(right, key, Cell(l, key)))]
  {
    FilterAtMostOne(right, KeyIs(key, Cell(l, key)));
  }

  /** `f` applied to every element, in order. */
  function MapSeq<T, U>(s: seq<T>, f: T -> U): (r: seq<U>)
    ensures |r| == |s|
    ensures forall k :: 0 <= k < |s| ==> r[k] == f(s[k])
  {
    if s == [] then [] else [f(s[0])] + MapSeq(s[1..], f)
  }

  lemma MapSeqCons<T, U>(x: T, s: seq<T>, f: T -> U)
    ensures MapSeq([x] + s, f) == [f(x)] + MapSeq(s, f)
  {
    assert ([x] + s)[1..] == s;
  }

  /** The merged row of one left row when its key has at most one match. */
  function PairWith(plan: seq<(string, Side)>, right: seq<Row>, key: string): Row -> Row
  {
    (l: Row) => Fill(plan, l, Lookup(right, key, Cell(l, key)))
  }

  /** With a unique right key, every left row yields exactly one merged row, paired with its lookup. */
  lemma {:induction false} MergeRowsUniqueKey(plan: seq<(string, Side)>, left: seq<Row>, right: seq<Row>, key: string)
    requires UniqueKey(right, key)
    ensures |MergeRows(plan, left, right, key)| == |left|
    ensures forall i :: 0 <= i < |left| ==>
      MergeRows(plan, left, right, key)[i] == Fill(plan, left[i], Lookup(right, key, Cell(left[i], key)))
  {
    MergeRowsArePaired(plan, left, right, key);
  }

  lemma {:induction false} MergeRowsArePaired(plan: seq<(string, Side)>, left: seq<Row>, right: seq<Row>, key: string)
    requires UniqueKey(right, key)
    ensures MergeRows(plan, left, right, key) == MapSeq(left, PairWith(plan, right, key))
  {
    if left != [] {
      MergeRowsArePaired(plan, left[1..], right, key);
      RowsForUniqueKey(plan, left[0], right, key);
    }
  }

  /** Without shared non-key columns nothing is suffixed: the left columns, then the right ones but the key. */
  lemma PlanWithoutOverlap(left: seq<string>, right: seq<string>, key: string)
    requires Overlap(left, right, key) == {}
    ensures Labels(MergePlan(left, right, key)) == left + OtherColumns(right, key)
  {
    var cols := Labels(MergePlan(left, right, key));
    assert forall j :: 0 <= j < |cols| ==> cols[j] == (left + OtherColumns(right, key))[j];
  }

  const DuplicateColumns := "duplicate columns"

  /**
   * `left.merge(right, on=key, how='left')`: the left rows in order, each
   * paired with every right row sharing its key, or kept once with NaN in the
   * right columns. Columns are the left ones and then the right ones without
   * the key; a name in both is suffixed `_x`/`_y`. A key absent from either
   * frame raises `KeyError`; suffixes that collide with another column raise
   * pandas' `MergeError`, a `ValueError`.
   */
  function LeftMerge(left: Frame, right: Frame, key: string): (r: Result<Frame>)
    ensures key !in left.columns || key !in right.columns ==> r == Err(KeyError(Some(key)))
    ensures r.Err? && key in left.columns && key in right.columns ==>
      r.error.ValueError? && !Distinct(Labels(MergePlan(left.columns, right.columns, key)))
    ensures r.Ok? ==> WellFormed(r.value) && |r.value.rows| >= |left.rows|
    ensures r.Ok? ==> |r.value.columns| == |left.columns| + |OtherColumns(right.columns, key)|
    ensures r.Ok? && Overlap(left.columns, right.columns, key) == {} ==>
      r.value.columns == left.columns + OtherColumns(right.columns, key)
  {
    if key !in left.columns || key !in right.columns then Err(KeyError(Some(key)))
    else
      var plan := MergePlan(left.columns, right.columns, key);
      var cols := Labels(plan);
      if !Distinct(cols) then Err(ValueError(DuplicateColumns))
      else
        assert Overlap(left.columns, right.columns, key) == {} ==> cols == left.columns + OtherColumns(right.columns, key) by {
          if Overlap(left.columns, right.columns, key) == {} {
            PlanWithoutOverlap(left.columns, right.columns, key);
          }
        }
        var rows := MergeRows(plan, left.rows, right.rows, key);
        assert WellFormed(Frame(cols, rows));
        Ok(Frame(cols, rows))
  }

  /**
   * With a unique right key, the merge keeps the left rows one for one: every
   * left column that is not suffixed keeps its value, and every right column
   * that is not suffixed holds the matching right row's value, or NaN when no
   * right row has that key.
   */
  lemma LeftMergeUniqueKey(left: Frame, right: Frame, key: string)
    requires LeftMerge(left, right, key).Ok?
    requires UniqueKey(right.rows, key)
    ensures var out := LeftMerge(left, right, key).value;
      && |out.rows| == |left.rows|
      && (forall i, c :: 0 <= i < |left.rows| && c in left.columns && c !in Overlap(left.columns, right.columns, key) ==>
            Cell(out.rows[i], c) == Cell(left.rows[i], c))
      && (forall i, c :: 0 <= i < |left.rows| && c in right.columns && c != key && c !in Overlap(left.columns, right.columns, key) ==>
            Cell(out.rows[i], c) == Take(FromRight(c), left.rows[i], Lookup(right.rows, key, Cell(left.rows[i], key))))
  {
    var plan := MergePlan(left.columns, right.columns, key);
    var out := LeftMerge(left, right, key).value;
    assert out.rows == MergeRows(plan, left.rows, right.rows, key) && Distinct(Labels(plan));
    MergeRowsUniqueKey(plan, left.rows, right.rows, key);
    forall i, c | 0 <= i < |left.rows| && c in left.columns && c !in Overlap(left.columns, right.columns, key)
      ensures Cell(out.rows[i], c) == Cell(left.rows[i], c)
    {
      var j := PlannedLeft(left.columns, right.columns, key, c);
      FillAt(plan, left.rows[i], Lookup(right.rows, key, Cell(left.rows[i], key)), j);
    }
    forall i, c | 0 <= i < |left.rows| && c in right.columns && c != key && c !in Overlap(left.columns, right.columns, key)
      ensures Cell(out.rows[i], c) == Take(FromRight(c), left.rows[i], Lookup(right.rows, key, Cell(left.rows[i], key)))
    {
      var j := PlannedRight(left.columns, right.columns, key, c);
      FillAt(plan, left.rows[i], Lookup(right.rows, key, Cell(left.rows[i], key)), j);
    }
  }

  /** With a unique right key, the merge has exactly one row per left row. */
  lemma LeftMergeLength(left: Frame, right: Frame, key: string)
    requires LeftMerge(left, right, key).Ok?
    requires UniqueKey(right.rows, key)
    ensures |LeftMerge(left, right, key).value.rows| == |left.rows|
  {
    MergeRowsUniqueKey(MergePlan(left.columns, right.columns, key), left.rows, right.rows, key);
  }

  /** One cell of `LeftMergeUniqueKey`: an unsuffixed left column of merged row `i` holds the left row's value. */
  lemma LeftMergeLeftCell(left: Frame, right: Frame, key: string, i: nat, c: string)
    requires LeftMerge(left, right, key).Ok?
    requires UniqueKey(right.rows, key)
    requires i < |left.rows| && c in left.columns && c !in Overlap(left.columns, right.columns, key)
    ensures var out := LeftMerge(left, right, key).value;
      i < |out.rows| && Cell(out.rows[i], c) == Cell(left.rows[i], c)
  {
    var plan := MergePlan(left.columns, right.columns, key);
    var out := LeftMerge(left, right, key).value;
    assert out.rows == MergeRows(plan, left.rows, right.rows, key) && Distinct(Labels(plan));
    MergeRowsUniqueKey(plan, left.rows, right.rows, key);
    var j := PlannedLeft(left.columns, right.columns, key, c);
    FillAt(plan, left.rows[i], Lookup(right.rows, key, Cell(left.rows[i], key)), j);
  }

  /** One cell of `LeftMergeUniqueKey`: an unsuffixed right column of merged row `i` holds the matched value. */
  lemma LeftMergeRightCell(left: Frame, right: Frame, key: string, i: nat, c: string)
    requires LeftMerge(left, right, key).Ok?
    requires UniqueKey(right.rows, key)
    requires i < |left.rows| && c in right.columns && c != key && c !in Overlap(left.columns, right.columns, key)
    ensures var out := LeftMerge(left, right, key).value;
      i < |out.rows| && Cell(out.rows[i], c) == Take(FromRight(c), left.rows[i], Lookup(right.rows, key, Cell(left.rows[i], key)))
  {
    var plan := MergePlan(left.columns, right.columns, key);
    var out := LeftMerge(left, right, key).value;
    assert out.rows == MergeRows(plan, left.rows, right.rows, key) && Distinct(Labels(plan));
    MergeRowsUniqueKey(plan, left.rows, right.rows, key);
    var j := PlannedRight(left.columns, right.columns, key, c);
    FillAt(plan, left.rows[i], Lookup(right.rows, key, Cell(left.rows[i], key)), j);
  }

  /** An unsuffixed left column has a planned position reading it from the left row. */
  lemma PlannedLeft(left: seq<string>, right: seq<string>, key: string, c: string) returns (j: nat)
    requires c in left && c !in Overlap(left, right, key)
    ensures j < |MergePlan(left, right, key)| && MergePlan(left, right, key)[j] == (c, FromLeft(c))
  {
    j :| j < |left| && left[j] == c;
  }

  /** An unsuffixed right column other than the key has a planned position reading it from the match. */
  lemma PlannedRight(left: seq<string>, right: seq<string>, key: string, c: string) returns (j: nat)
    requires c in right && c != key && c !in Overlap(left, right, key)
    ensures j < |MergePlan(left, right, key)| && MergePlan(left, right, key)[j] == (c, FromRight(c))
  {
    var others := OtherColumns(right, key);
    assert c in others;
    var k :| 0 <= k < |others| && others[k] == c;
    j := |left| + k;
  }

  /** A merged row holds, under each planned column, the value that column is read from. */
  lemma FillAt(plan: seq<(string, Side)>, l: Row, m: Option<Row>, j: nat)
    requires Distinct(Labels(plan)) && j < |plan|
    ensures Cell(Fill(plan, l, m), plan[j].0) == Take(plan[j].1, l, m)
  {
    assert plan[j].0 in Labels(plan);
  }
}
