/** Deciding which columns are plottable numeric series: `detect_numeric_columns`. */
module Numeric {
  import opened Store

  /** Python's `float(s)` on a string: a number, or `None` where it raises. */
  type Parser = string -> Option<real>

  /** The sample size the catalogue builder uses (the source's default). */
  const DefaultSampleSize := 100
  /** The fewest non-null sampled values a column needs to be considered. */
  const MinValues := 5

  /** The numeric reading of one non-null cell: integers and floats directly,
      strings through `float`, nothing else. */
  function Coerce(v: Cell, parse: Parser): Option<real>
  {
    match v
    case Int(i) => Some(i as real)
    case Real(r) => Some(r)
    case Str(s) => parse(s)
    case Null => None
  }

  /** The cells of column `i`, one per row. */
  function ColumnCells(rows: seq<seq<Cell>>, i: int): (r: seq<Cell>)
    ensures |r| == |rows|
  {
    seq(|rows|, k requires 0 <= k < |rows| => CellAt(rows[k], i))
  }

  /** The non-null cells, in order. */
  function NonNull(cells: seq<Cell>): (r: seq<Cell>)
    ensures |r| <= |cells|
    ensures forall v :: v in r ==> v in cells && v != Null
    ensures forall v :: v in cells && v != Null ==> v in r
  {
    if cells == [] then []
    else (if cells[0] == Null then [] else [cells[0]]) + NonNull(cells[1..])
  }

  /** `dropna` removes every null and nothing else: each other cell is kept
      as often as it occurs. */
  lemma {:induction false} NonNullMultiset(cells: seq<Cell>)
    ensures multiset(NonNull(cells)) == multiset(cells)[Null := 0]
  {
    if cells != [] {
      var head, tail := cells[0], cells[1..];
      NonNullMultiset(tail);
      assert cells == [head] + tail;
      var kept := if head == Null then [] else [head];
      assert NonNull(cells) == kept + NonNull(tail);
      assert multiset(kept) == multiset([head])[Null := 0];
    }
  }

  /** `dropna` keeps the surviving cells in their order. */
  lemma {:induction false} NonNullInOrder(cells: seq<Cell>) returns (idx: seq<int>)
    ensures SubsequenceBy(NonNull(cells), cells, idx)
  {
    if cells == [] {
      idx := [];
    } else {
      var tail := cells[1..];
      var rest := NonNullInOrder(tail);
      var shifted := SubsequenceCons(NonNull(tail), cells, rest);
      if cells[0] == Null {
        assert NonNull(cells) == NonNull(tail);
        idx := shifted;
      } else {
        assert NonNull(cells) == [cells[0]] + NonNull(tail);
        idx := [0] + shifted;
      }
    }
  }

  /** The numeric readings of the values that have one, in order. */
  function Coercible(values: seq<Cell>, parse: Parser): (r: seq<real>)
    ensures |r| <= |values|
  {
    if values == [] then []
    else
      var init := Coercible(values[..|values| - 1], parse);
      match Coerce(values[|values| - 1], parse)
      case Some(x) => init + [x]
      case None => init
  }

  /** The non-null values of column `i` in the first `sampleSize` rows. */
  function SampledValues(t: Table, i: int, sampleSize: int): seq<Cell>
  {
    NonNull(ColumnCells(Limit(t.rows, sampleSize), i))
  }

  function Sum(xs: seq<real>): real
  {
    if xs == [] then 0.0 else Sum(xs[..|xs| - 1]) + xs[|xs| - 1]
  }

  function Mean(xs: seq<real>): real
  {
    if xs == [] then 0.0 else Sum(xs) / (|xs| as real)
  }

  /** Sum of squared deviations from `m`. */
  function SquaredDeviations(xs: seq<real>, m: real): real
  {
    if xs == [] then 0.0
    else SquaredDeviations(xs[..|xs| - 1], m) + Square(xs[|xs| - 1] - m)
  }

  function Square(d: real): real { Times(d, d) }

  function Times(a: real, b: real): real { a * b }

  /** Population variance, as `np.var` computes it (over exact reals). */
  function Variance(xs: seq<real>): real
  {
    if xs == [] then 0.0 else SquaredDeviations(xs, Mean(xs)) / (|xs| as real)
  }

  /** `len(set(xs)) > 1`. */
  predicate MoreThanOneValue(xs: seq<real>)
  {
    |set x | x in xs| > 1
  }

  predicate HasTwoDistinct(xs: seq<real>)
  {
    exists i, j :: 0 <= i < |xs| && 0 <= j < |xs| && xs[i] != xs[j]
  }

  /** The source's test for one column, applied to its non-null sampled values. */
  predicate IsNumericColumn(values: seq<Cell>, parse: Parser)
  {
    var numeric := Coercible(values, parse);
    && |values| >= MinValues
    && 5 * |numeric| >= 4 * |values|
    && MoreThanOneValue(numeric)
    && Variance(numeric) > 0.0
  }

  /** The numeric columns among the first `k` columns, given the sampled rows. */
  function NumericUpTo(columns: seq<string>, rows: seq<seq<Cell>>, k: nat, parse: Parser): seq<string>
    requires k <= |columns|
  {
    if k == 0 then []
    else NumericUpTo(columns, rows, k - 1, parse)
         + if IsNumericColumn(NonNull(ColumnCells(rows, k - 1)), parse) then [columns[k - 1]] else []
  }

  /** What `detect_numeric_columns(conn, table, sample_size)` returns. */
  function NumericColumns(t: Table, sampleSize: int, parse: Parser): seq<string>
  {
    var rows := Limit(t.rows, sampleSize);
    if rows == [] then [] else NumericUpTo(t.columns, rows, |t.columns|, parse)
  }

  method DetectNumericColumns(t: Table, sampleSize: int, parse: Parser) returns (numericColumns: seq<string>)
    ensures numericColumns == NumericColumns(t, sampleSize, parse)
  {
    numericColumns := [];
    var rows := Limit(t.rows, sampleSize);
    if rows == [] {
      return;
    }
    var columns := t.columns;
    for i := 0 to |columns|
      invariant numericColumns == NumericUpTo(columns, rows, i, parse)
    {
      var values := NonNull(ColumnCells(rows, i));
      if |values| < MinValues {
        continue;
      }
      var numericValues := CoerceValues(values, parse);
      if 5 * |numericValues| >= 4 * |values| {
        if |set x | x in numericValues| > 1 {
          var variance := Variance(numericValues);
          if variance > 0.0 {
            numericColumns := numericColumns + [columns[i]];
          }
        }
      }
    }
  }

  /** The inner loop: the numeric readings of the sampled values, in order. */
  method CoerceValues(values: seq<Cell>, parse: Parser) returns (numericValues: seq<real>)
    ensures numericValues == Coercible(values, parse)
  {
    numericValues := [];
    for j := 0 to |values|
      invariant numericValues == Coercible(values[..j], parse)
    {
      assert values[..j + 1][..j] == values[..j];
      match Coerce(values[j], parse)
      case Some(x) => numericValues := numericValues + [x];
      case None =>
    }
    assert values[..|values|] == values;
  }

  /** `len(set(xs)) > 1` holds exactly when two entries differ. */
  lemma MoreThanOneValueIff(xs: seq<real>)
    ensures MoreThanOneValue(xs) <==> HasTwoDistinct(xs)
  {
    var s := set x | x in xs;
    if HasTwoDistinct(xs) {
      var i, j :| 0 <= i < |xs| && 0 <= j < |xs| && xs[i] != xs[j];
      assert xs[j] in s - {xs[i]};
      assert |s - {xs[i]}| == |s| - 1;
    } else if xs != [] {
      assert s == {xs[0]};
    }
  }

  lemma {:induction false} SquaredDeviationsNonNegative(xs: seq<real>, m: real)
    ensures SquaredDeviations(xs, m) >= 0.0
  {
    if xs != [] {
      SquaredDeviationsNonNegative(xs[..|xs| - 1], m);
      SquareNonNegative(xs[|xs| - 1] - m);
    }
  }

  /** Every entry's own squared deviation is part of the sum. */
  lemma {:induction false} SquaredDeviationsAtLeast(xs: seq<real>, m: real, k: int)
    requires 0 <= k < |xs|
    ensures SquaredDeviations(xs, m) >= Square(xs[k] - m)
  {
    var init := xs[..|xs| - 1];
    if k == |xs| - 1 {
      SquaredDeviationsNonNegative(init, m);
    } else {
      SquaredDeviationsAtLeast(init, m, k);
      SquareNonNegative(xs[|xs| - 1] - m);
    }
  }

  /** Over reals, two different values force a positive variance, so the
      source's `variance > 0` test never rejects a column that passed the
      distinct-values test. */
  lemma VariancePositive(xs: seq<real>)
    requires HasTwoDistinct(xs)
    ensures Variance(xs) > 0.0
  {
    var i, j :| 0 <= i < |xs| && 0 <= j < |xs| && xs[i] != xs[j];
    var m := Mean(xs);
    var k: int;
    if xs[i] != m { k := i; } else { k := j; }
    SquaredDeviationsAtLeast(xs, m, k);
    SquarePositive(xs[k] - m);
    var sd := SquaredDeviations(xs, m);
    assert Variance(xs) == sd / (|xs| as real);
    PositiveQuotient(sd, |xs| as real);
  }

  lemma TimesPositive(a: real, b: real)
    requires a > 0.0 && b > 0.0
    ensures Times(a, b) > 0.0
  {
  }

  lemma SquarePositive(d: real)
    requires d != 0.0
    ensures Square(d) > 0.0
  {
    if d > 0.0 {
      TimesPositive(d, d);
    } else {
      assert Times(d, d) == Times(-d, -d);
      TimesPositive(-d, -d);
    }
  }

  lemma SquareNonNegative(d: real)
    ensures Square(d) >= 0.0
  {
    if d != 0.0 {
      SquarePositive(d);
    }
  }

  lemma PositiveQuotient(a: real, b: real)
    requires a > 0.0 && b > 0.0
    ensures a / b > 0.0
  {
  }

  /** The classification rule without the variance test: enough evidence, at
      least four fifths coercible (boundary included), two distinct values. */
  lemma IsNumericColumnIff(values: seq<Cell>, parse: Parser)
    ensures IsNumericColumn(values, parse) <==>
      var numeric := Coercible(values, parse);
      |values| >= MinValues && 5 * |numeric| >= 4 * |values| && HasTwoDistinct(numeric)
  {
    var numeric := Coercible(values, parse);
    MoreThanOneValueIff(numeric);
    if HasTwoDistinct(numeric) {
      VariancePositive(numeric);
    }
  }

  /** The selected columns keep the table's order, come from it, and each has
      the minimum evidence in the sample. */
  lemma {:induction false} NumericUpToShape(columns: seq<string>, rows: seq<seq<Cell>>, k: nat, parse: Parser)
    returns (idx: seq<int>)
    requires k <= |columns|
    ensures SubsequenceBy(NumericUpTo(columns, rows, k, parse), columns, idx)
    ensures forall n :: 0 <= n < |idx| ==> idx[n] < k && IsNumericColumn(NonNull(ColumnCells(rows, idx[n])), parse)
  {
    if k == 0 {
      idx := [];
    } else {
      var prev := NumericUpTo(columns, rows, k - 1, parse);
      idx := NumericUpToShape(columns, rows, k - 1, parse);
      if IsNumericColumn(NonNull(ColumnCells(rows, k - 1)), parse) {
        assert NumericUpTo(columns, rows, k, parse) == prev + [columns[k - 1]];
        idx := idx + [k - 1];
      } else {
        assert NumericUpTo(columns, rows, k, parse) == prev;
      }
    }
  }

  /** A column of a table with unique column names is selected exactly when it
      passes the test on its own sampled values. */
  lemma NumericColumnsIff(t: Table, sampleSize: int, parse: Parser, i: int)
    requires Distinct(t.columns) && 0 <= i < |t.columns|
    ensures t.columns[i] in NumericColumns(t, sampleSize, parse) <==>
            IsNumericColumn(SampledValues(t, i, sampleSize), parse)
  {
    var rows := Limit(t.rows, sampleSize);
    if rows != [] {
      NumericUpToMember(t.columns, rows, |t.columns|, parse, i);
    } else {
      assert |SampledValues(t, i, sampleSize)| == 0;
    }
  }

  lemma {:induction false} NumericUpToMember(columns: seq<string>, rows: seq<seq<Cell>>, k: nat, parse: Parser, i: int)
    requires Distinct(columns) && k <= |columns| && 0 <= i < |columns|
    ensures columns[i] in NumericUpTo(columns, rows, k, parse) <==>
            i < k && IsNumericColumn(NonNull(ColumnCells(rows, i)), parse)
  {
    if k > 0 {
      NumericUpToMember(columns, rows, k - 1, parse, i);
      var idx := NumericUpToShape(columns, rows, k - 1, parse);
      if columns[i] in NumericUpTo(columns, rows, k - 1, parse) {
        assert i < k - 1;
      }
      assert columns[i] == columns[k - 1] ==> i == k - 1;
    }
  }

  /** The result is a duplicate-free subsequence of the table's columns, it is
      empty for an empty sample, and every selected column has at least five
      non-null sampled values. */
  lemma NumericColumnsShape(t: Table, sampleSize: int, parse: Parser)
    requires Distinct(t.columns)
    ensures var r := NumericColumns(t, sampleSize, parse);
      && IsSubsequence(r, t.columns)
      && Distinct(r)
      && (Limit(t.rows, sampleSize) == [] ==> r == [])
      && forall c :: c in r ==> exists i :: 0 <= i < |t.columns| && t.columns[i] == c
                                 && |SampledValues(t, i, sampleSize)| >= MinValues
  {
    var r := NumericColumns(t, sampleSize, parse);
    var rows := Limit(t.rows, sampleSize);
    var idx: seq<int>;
    if rows == [] {
      idx := [];
    } else {
      idx := NumericUpToShape(t.columns, rows, |t.columns|, parse);
    }
    assert SubsequenceBy(r, t.columns, idx);
    SubsequenceDistinct(r, t.columns, idx);
    forall c | c in r
      ensures exists i :: 0 <= i < |t.columns| && t.columns[i] == c
                          && |SampledValues(t, i, sampleSize)| >= MinValues
    {
      var n :| 0 <= n < |r| && r[n] == c;
      assert t.columns[idx[n]] == c;
    }
  }

  /** Five equal numbers are rejected: there is no variation to plot. */
  lemma ConstantColumnRejected(values: seq<Cell>, parse: Parser)
    requires values == [Int(7), Int(7), Real(7.0), Int(7), Int(7)]
    ensures !IsNumericColumn(values, parse)
  {
    var numeric := ConstantCoercible(values, parse);
    MoreThanOneValueIff(numeric);
    assert !HasTwoDistinct(numeric);
  }

  lemma ConstantCoercible(values: seq<Cell>, parse: Parser) returns (numeric: seq<real>)
    requires values == [Int(7), Int(7), Real(7.0), Int(7), Int(7)]
    ensures numeric == Coercible(values, parse) == [7.0, 7.0, 7.0, 7.0, 7.0]
  {
    assert values[..1][..0] == [] && values[..2][..1] == values[..1];
    assert values[..3][..2] == values[..2] && values[..4][..3] == values[..3];
    assert values[..4] == values[..|values| - 1];
    assert Coercible(values[..1], parse) == [7.0];
    assert Coercible(values[..2], parse) == [7.0, 7.0];
    assert Coercible(values[..3], parse) == [7.0, 7.0, 7.0];
    assert Coercible(values[..4], parse) == [7.0, 7.0, 7.0, 7.0];
    numeric := Coercible(values, parse);
  }

  /** Four values are too few, however varied. */
  lemma FourValuesRejected(parse: Parser)
    ensures !IsNumericColumn([Int(1), Int(2), Int(3), Int(4)], parse)
  {
  }

  /** Exactly four fifths coercible, with variation, is accepted. */
  lemma EightyPercentAccepted(parse: Parser)
    requires parse("n/a").None?
    ensures IsNumericColumn([Int(1), Int(2), Str("n/a"), Real(3.5), Int(4)], parse)
  {
    var values := [Int(1), Int(2), Str("n/a"), Real(3.5), Int(4)];
    IsNumericColumnIff(values, parse);
    assert values[..1][..0] == [] && values[..2][..1] == values[..1];
    assert values[..3][..2] == values[..2] && values[..4][..3] == values[..3];
    assert values[..4] == values[..|values| - 1];
    assert Coercible(values[..1], parse) == [1.0];
    assert Coercible(values[..2], parse) == [1.0, 2.0];
    assert Coercible(values[..3], parse) == [1.0, 2.0];
    assert Coercible(values[..4], parse) == [1.0, 2.0, 3.5];
    var numeric := Coercible(values, parse);
    assert numeric == [1.0, 2.0, 3.5, 4.0];
    assert numeric[0] != numeric[1];
  }
}
