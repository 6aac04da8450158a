/** The relational store the loaded log lives in, seen abstractly: a map from
    table name to its ordered column names and its rows of cells. */
module Store {
  import opened Text

  datatype Option<T> = None | Some(value: T)

  /** A stored cell: the scalar kinds a decoded message field can take. */
  datatype Cell = Int(i: int) | Real(r: real) | Str(s: string) | Null

  datatype Table = Table(columns: seq<string>, rows: seq<seq<Cell>>)

  /** Two identifiers SQLite treats as the same name: ASCII case is ignored. */
  predicate SameIdentifier(a: string, b: string)
  {
    ToLower(a) == ToLower(b)
  }

  /** No two of the names differ only in case. */
  predicate CaseDistinct(names: seq<string>)
  {
    forall i, j :: 0 <= i < j < |names| ==> !SameIdentifier(names[i], names[j])
  }

  /** What SQLite lets a database hold: no two tables whose names differ only
      in case, and no table with two such columns. */
  predicate ValidStore(db: map<string, Table>)
  {
    && (forall a, b :: a in db && b in db && a != b ==> !SameIdentifier(a, b))
    && forall a :: a in db ==> CaseDistinct(db[a].columns)
  }

  type Db = db: map<string, Table> | ValidStore(db) witness map[]

  predicate Distinct<T(==)>(s: seq<T>)
  {
    forall i, j :: 0 <= i < j < |s| ==> s[i] != s[j]
  }

  /** What the store guarantees of every table: unique column names and
      one cell per column in every row. */
  predicate WellFormed(t: Table)
  {
    Distinct(t.columns) && forall r :: r in t.rows ==> |r| == |t.columns|
  }

  /** The `i`-th cell of a row; a missing position reads as null. */
  function CellAt(row: seq<Cell>, i: int): Cell
  {
    if 0 <= i < |row| then row[i] else Null
  }

  /** The rows an SQL `LIMIT n` keeps: a prefix of at most `n` rows, and every
      row when `n` is negative (SQLite's reading of a negative limit). */
  function Limit(rows: seq<seq<Cell>>, n: int): (r: seq<seq<Cell>>)
    ensures |r| == if 0 <= n < |rows| then n else |rows|
    ensures r <= rows
  {
    if n < 0 || n >= |rows| then rows else rows[..n]
  }

  /** `SELECT COUNT(*)`. */
  function RowCount(t: Table): nat
  {
    |t.rows|
  }

  /** The table `[name]` refers to in a statement: SQLite looks table names up
      ignoring case, and the store holds at most one match. */
  function TableOf(db: Db, name: string): (r: Option<Table>)
    ensures r.Some? <==> exists k :: k in db && SameIdentifier(k, name)
    ensures forall k :: k in db && SameIdentifier(k, name) ==> r == Some(db[k])
    ensures r.Some? ==> CaseDistinct(r.value.columns)
  {
    if exists k :: k in db && SameIdentifier(k, name) then
      var k :| k in db && SameIdentifier(k, name);
      Some(db[k])
    else None
  }

  /** The column names `PRAGMA table_info` reports: none for a missing table. */
  function ColumnsOf(db: Db, name: string): seq<string>
  {
    match TableOf(db, name)
    case Some(t) => t.columns
    case None => []
  }

  /** Names that differ even ignoring case differ as written. */
  lemma CaseDistinctIsDistinct(names: seq<string>)
    requires CaseDistinct(names)
    ensures Distinct(names)
  {
    forall i, j | 0 <= i < j < |names| ensures names[i] != names[j] {
      assert !SameIdentifier(names[i], names[j]);
    }
  }

  /** `xs` is the subsequence of `ys` picked out by the increasing positions `idx`. */
  predicate SubsequenceBy<T(==)>(xs: seq<T>, ys: seq<T>, idx: seq<int>)
  {
    && |idx| == |xs|
    && (forall k :: 0 <= k < |idx| ==> 0 <= idx[k] < |ys| && xs[k] == ys[idx[k]])
    && (forall k, l :: 0 <= k < l < |idx| ==> idx[k] < idx[l])
  }

  ghost predicate IsSubsequence<T>(xs: seq<T>, ys: seq<T>)
  {
    exists idx :: SubsequenceBy(xs, ys, idx)
  }

  /** A subsequence of all but the last element is one of the whole sequence,
      and stays one when it takes that last element too. */
  lemma SubsequenceSnoc<T>(xs: seq<T>, ys: seq<T>, idx: seq<int>)
    requires |ys| > 0 && SubsequenceBy(xs, ys[..|ys| - 1], idx)
    ensures SubsequenceBy(xs, ys, idx)
    ensures SubsequenceBy(xs + [ys[|ys| - 1]], ys, idx + [|ys| - 1])
  {
    var init := ys[..|ys| - 1];
    assert forall k :: 0 <= k < |idx| ==> init[idx[k]] == ys[idx[k]];
  }

  /** A subsequence of all but the first element is one of the whole sequence,
      and stays one when it takes that first element too. */
  lemma SubsequenceCons<T>(xs: seq<T>, ys: seq<T>, idx: seq<int>) returns (shifted: seq<int>)
    requires |ys| > 0 && SubsequenceBy(xs, ys[1..], idx)
    ensures SubsequenceBy(xs, ys, shifted)
    ensures SubsequenceBy([ys[0]] + xs, ys, [0] + shifted)
  {
    shifted := seq(|idx|, k requires 0 <= k < |idx| => idx[k] + 1);
    forall k | 0 <= k < |idx|
      ensures 0 <= shifted[k] < |ys| && xs[k] == ys[shifted[k]]
    {
      assert ys[1..][idx[k]] == ys[idx[k] + 1];
    }
  }

  /** A subsequence of a duplicate-free sequence is duplicate-free. */
  lemma SubsequenceDistinct<T>(xs: seq<T>, ys: seq<T>, idx: seq<int>)
    requires Distinct(ys) && SubsequenceBy(xs, ys, idx)
    ensures Distinct(xs)
  {
  }
}
