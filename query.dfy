/** Query shaping: `get_chart_data` and `calculate_data_statistics` over the
    abstract store. A `SELECT [c1], ..., [cn] FROM [t]` resolves each name to
    a column of `t` the way SQLite does (ASCII case-insensitively), labels
    the result with the declared column names, and keeps the table's rows in
    order; `LIMIT n` keeps a prefix. */
module Query {
  import opened Text
  import opened Store
  import opened TimeColumn
  import opened TimeFormat
  import opened Numeric

  /** Why a query shaping call returns an error dictionary. */
  datatype QueryError =
    | NoTimeColumn(messageType: string)   // raised by `get_chart_data`
    | EmptySelection                     // `SELECT  FROM ...` is not valid SQL
    | NoSuchTable(table: string)
    | NoSuchColumn(column: string)
    | NoData                             // the query returned no rows
    | AmbiguousColumn(column: string)    // a label the result carries other than once
    | BadTimeValue                       // a null or text microsecond value
    | NotNumeric(column: string)         // a text value in a column to summarise

  datatype Result<T> = Ok(value: T) | Failure(error: QueryError)

  /** The `'error'` text where the program itself writes it; the text of an
      exception raised by SQLite or pandas is not modelled. */
  function ErrorMessage(e: QueryError): (r: Option<string>)
    ensures r.Some? <==> e.NoTimeColumn? || e.NoData?
    ensures e.NoTimeColumn? ==> r == Some("No time column found for " + e.messageType)
    ensures e.NoData? ==> r == Some("No data found")
  {
    match e
    case NoTimeColumn(mt) => Some("No time column found for " + mt)
    case NoData => Some("No data found")
    case _ => None
  }

  /** The column a selected name refers to. */
  function Resolve(columns: seq<string>, name: string): (r: Option<nat>)
    ensures r.Some? ==> r.value < |columns| && SameIdentifier(columns[r.value], name)
    ensures r.Some? ==> forall k :: 0 <= k < r.value ==> !SameIdentifier(columns[k], name)
    ensures r.None? ==> forall k :: 0 <= k < |columns| ==> !SameIdentifier(columns[k], name)
  {
    if columns == [] then None
    else if SameIdentifier(columns[0], name) then Some(0)
    else match Resolve(columns[1..], name)
      case None => None
      case Some(i) => Some(i + 1)
  }

  /** Among column names SQLite accepts, a name resolves to the one column
      it matches. */
  lemma ResolveUnique(columns: seq<string>, name: string, p: nat)
    requires CaseDistinct(columns) && p < |columns| && SameIdentifier(columns[p], name)
    ensures Resolve(columns, name) == Some(p)
  {
    var r := Resolve(columns, name);
    assert r.Some?;
    assert SameIdentifier(columns[r.value], columns[p]) && SameIdentifier(columns[p], columns[r.value]);
  }

  /** Resolves a whole select list; the first name that refers to no column is
      the error. */
  function ResolveAll(columns: seq<string>, names: seq<string>): (r: Result<seq<nat>>)
    ensures r.Ok? ==> |r.value| == |names|
    ensures r.Ok? ==> forall k :: 0 <= k < |names| ==> Resolve(columns, names[k]) == Some(r.value[k])
    ensures r.Failure? ==> exists k :: 0 <= k < |names| && Resolve(columns, names[k]).None?
                                       && r.error == NoSuchColumn(names[k])
  {
    if names == [] then Ok([])
    else match Resolve(columns, names[0])
      case None => Failure(NoSuchColumn(names[0]))
      case Some(i) =>
        match ResolveAll(columns, names[1..])
        case Failure(e) =>
          assert forall k :: 0 <= k < |names| - 1 ==> names[1..][k] == names[k + 1];
          Failure(e)
        case Ok(rest) => Ok([i] + rest)
  }

  /** The result's column labels: the declared names of the resolved columns. */
  function Labels(columns: seq<string>, idx: seq<nat>): (r: seq<string>)
    requires forall k :: 0 <= k < |idx| ==> idx[k] < |columns|
    ensures |r| == |idx| && forall k :: 0 <= k < |idx| ==> r[k] == columns[idx[k]]
  {
    seq(|idx|, k requires 0 <= k < |idx| => columns[idx[k]])
  }

  /** The selected cells of every row. */
  function Project(rows: seq<seq<Cell>>, idx: seq<nat>): (r: seq<seq<Cell>>)
    ensures |r| == |rows|
    ensures forall i, k :: 0 <= i < |rows| && 0 <= k < |idx| ==> |r[i]| == |idx| && r[i][k] == CellAt(rows[i], idx[k])
  {
    seq(|rows|, i requires 0 <= i < |rows| => seq(|idx|, k requires 0 <= k < |idx| => CellAt(rows[i], idx[k])))
  }

  /** `if limit: query += f" LIMIT {limit}"`: `None` and `0` add no clause. */
  function LimitClause(rows: seq<seq<Cell>>, limit: Option<int>): seq<seq<Cell>>
  {
    if limit.Some? && limit.value != 0 then Limit(rows, limit.value) else rows
  }

  /** The first position of `x`. */
  function IndexOf(xs: seq<string>, x: string): (r: nat)
    requires x in xs
    ensures r < |xs| && xs[r] == x && forall k :: 0 <= k < r ==> xs[k] != x
  {
    if xs[0] == x then 0 else 1 + IndexOf(xs[1..], x)
  }

  /** The value pandas reads from a cell of a numeric column. */
  function NumberOf(c: Cell): Option<real>
  {
    match c
    case Int(i) => Some(i as real)
    case Real(r) => Some(r)
    case _ => None
  }

  /** The branch that formats microseconds as MM:SS. */
  predicate IsTimeUs(timeCol: string)
  {
    Contains(ToLower(timeCol), "timeus")
  }

  /** The MM:SS labels of a microsecond column; a null (NaN) or a text value
      makes the conversion raise. */
  function FormatTimeColumn(cells: seq<Cell>): (r: Result<seq<string>>)
    ensures r.Failure? <==> exists k :: 0 <= k < |cells| && NumberOf(cells[k]).None?
    ensures r.Failure? ==> r.error == BadTimeValue
    ensures r.Ok? ==> |r.value| == |cells|
    ensures r.Ok? ==> forall k :: 0 <= k < |cells| ==>
      NumberOf(cells[k]).Some? && r.value[k] == FormatTime(NumberOf(cells[k]).value)
  {
    if exists k :: 0 <= k < |cells| && NumberOf(cells[k]).None? then Failure(BadTimeValue)
    else Ok(seq(|cells|, k requires 0 <= k < |cells| => FormatTime(NumberOf(cells[k]).value)))
  }

  /** The success dictionary of `get_chart_data`; the `'datetime'` column and
      the constant column-name entries are not modelled. */
  datatype ChartData = ChartData(
    data: seq<seq<Cell>>,
    labels: seq<string>,
    timeFormatted: seq<string>,
    attributes: seq<string>,
    messageType: string)

  /** The `'time_formatted'` column: MM:SS labels when the time column's
      lower-cased name contains "timeus", the raw values' strings otherwise. */
  function TimeLabels(timeCol: string, cells: seq<Cell>, show: Cell -> string): (r: Result<seq<string>>)
    ensures r.Ok? ==> |r.value| == |cells|
  {
    if IsTimeUs(timeCol) then FormatTimeColumn(cells)
    else Ok(seq(|cells|, k requires 0 <= k < |cells| => show(cells[k])))
  }

  /** Everything after the select list resolved: run the query, reject an
      empty result, then build the time labels from the column labelled with
      the time column's name. */
  function ShapeChart(t: Table, timeCol: string, idx: seq<nat>, attributes: seq<string>, messageType: string,
                      limit: Option<int>, show: Cell -> string): Result<ChartData>
    requires forall k :: 0 <= k < |idx| ==> idx[k] < |t.columns|
  {
    var data := Project(LimitClause(t.rows, limit), idx);
    if data == [] then Failure(NoData)
    else
      var labels := Labels(t.columns, idx);
      if multiset(labels)[timeCol] != 1 then Failure(AmbiguousColumn(timeCol))
      else
        match TimeLabels(timeCol, ColumnCells(data, IndexOf(labels, timeCol)), show)
        case Failure(e) => Failure(e)
        case Ok(f) => Ok(ChartData(data, labels, f, attributes, messageType))
  }

  /** `get_chart_data(conn, message_type, attributes, limit)`; `show` is
      pandas' `astype(str)` on one cell. */
  function GetChartData(db: Db, messageType: string, attributes: seq<string>, limit: Option<int>,
                        show: Cell -> string): Result<ChartData>
  {
    if TableOf(db, messageType).None? then Failure(NoTimeColumn(messageType))
    else
      var t := TableOf(db, messageType).value;
      match GetTimeColumn(t.columns)
      case None => Failure(NoTimeColumn(messageType))
      case Some(timeCol) =>
        match ResolveAll(t.columns, [timeCol] + attributes)
        case Failure(e) => Failure(e)
        case Ok(idx) => ShapeChart(t, timeCol, idx, attributes, messageType, limit, show)
  }

  /** A successful call passed every gate before shaping the result. */
  lemma ChartDataOk(db: Db, messageType: string, attributes: seq<string>, limit: Option<int>,
                    show: Cell -> string) returns (timeCol: string, idx: seq<nat>)
    requires GetChartData(db, messageType, attributes, limit, show).Ok?
    ensures TableOf(db, messageType).Some? && GetTimeColumn(TableOf(db, messageType).value.columns) == Some(timeCol)
    ensures ResolveAll(TableOf(db, messageType).value.columns, [timeCol] + attributes) == Ok(idx)
    ensures forall k :: 0 <= k < |idx| ==> idx[k] < |TableOf(db, messageType).value.columns|
    ensures GetChartData(db, messageType, attributes, limit, show) ==
            ShapeChart(TableOf(db, messageType).value, timeCol, idx, attributes, messageType, limit, show)
  {
    timeCol := GetTimeColumn(TableOf(db, messageType).value.columns).value;
    idx := ResolveAll(TableOf(db, messageType).value.columns, [timeCol] + attributes).value;
  }

  /** The error `"No time column found for <type>"` is returned exactly when the
      resolver finds no time column (a table no stored name matches
      ignoring case has no columns). */
  lemma ChartDataNoTimeColumn(db: Db, messageType: string, attributes: seq<string>, limit: Option<int>,
                              show: Cell -> string)
    ensures var r := GetChartData(db, messageType, attributes, limit, show);
      (r.Failure? && r.error.NoTimeColumn?) <==> TimeColumnOf(db, messageType).None?
    ensures var r := GetChartData(db, messageType, attributes, limit, show);
      r.Failure? && r.error.NoTimeColumn? ==>
        ErrorMessage(r.error) == Some("No time column found for " + messageType)
  {
    if TableOf(db, messageType).Some? && GetTimeColumn(TableOf(db, messageType).value.columns).Some? {
      var t := TableOf(db, messageType).value;
      var timeCol := GetTimeColumn(t.columns).value;
      var resolved := ResolveAll(t.columns, [timeCol] + attributes);
      if resolved.Ok? {
        ShapeChartErrors(t, timeCol, resolved.value, attributes, messageType, limit, show);
      }
    }
  }

  /** Shaping fails only for an empty result, an ambiguous time label or a bad
      time value. */
  lemma ShapeChartErrors(t: Table, timeCol: string, idx: seq<nat>, attributes: seq<string>, messageType: string,
                         limit: Option<int>, show: Cell -> string)
    requires forall k :: 0 <= k < |idx| ==> idx[k] < |t.columns|
    ensures var r := ShapeChart(t, timeCol, idx, attributes, messageType, limit, show);
      r.Failure? ==> r.error == NoData || r.error == AmbiguousColumn(timeCol) || r.error == BadTimeValue
  {
  }

  /** On success the result is labelled with the time column followed by the
      requested attributes, each resolved to the table column SQLite picks
      and carrying that column's declared name. */
  lemma ChartDataLabels(db: Db, messageType: string, attributes: seq<string>, limit: Option<int>,
                        show: Cell -> string) returns (idx: seq<nat>)
    requires GetChartData(db, messageType, attributes, limit, show).Ok?
    ensures TableOf(db, messageType).Some? && TimeColumnOf(db, messageType).Some?
    ensures var t := TableOf(db, messageType).value;
      var selected := [TimeColumnOf(db, messageType).value] + attributes;
      var cd := GetChartData(db, messageType, attributes, limit, show).value;
      && ResolveAll(t.columns, selected) == Ok(idx)
      && |idx| == |selected| == |cd.labels|
      && (forall k :: 0 <= k < |idx| ==> idx[k] < |t.columns| && Resolve(t.columns, selected[k]) == Some(idx[k])
                                         && cd.labels[k] == t.columns[idx[k]])
      && cd.attributes == attributes && cd.messageType == messageType
  {
    var timeCol;
    timeCol, idx := ChartDataOk(db, messageType, attributes, limit, show);
  }

  /** On success the rows are those the LIMIT keeps, in table order, each
      holding the cells of the resolved columns. */
  lemma ChartDataRows(db: Db, messageType: string, attributes: seq<string>, limit: Option<int>,
                      show: Cell -> string) returns (idx: seq<nat>)
    requires GetChartData(db, messageType, attributes, limit, show).Ok?
    ensures TableOf(db, messageType).Some? && TimeColumnOf(db, messageType).Some?
    ensures var t := TableOf(db, messageType).value;
      var cd := GetChartData(db, messageType, attributes, limit, show).value;
      && ResolveAll(t.columns, [TimeColumnOf(db, messageType).value] + attributes) == Ok(idx)
      && |cd.data| == |LimitClause(t.rows, limit)| > 0
      && forall i :: 0 <= i < |cd.data| ==>
           && |cd.data[i]| == |idx|
           && forall k :: 0 <= k < |idx| ==> cd.data[i][k] == CellAt(t.rows[i], idx[k])
  {
    var timeCol;
    timeCol, idx := ChartDataOk(db, messageType, attributes, limit, show);
    ShapeRows(TableOf(db, messageType).value, timeCol, idx, attributes, messageType, limit, show);
  }

  /** A shaped result holds the selected cells of the rows the LIMIT keeps. */
  lemma ShapeRows(t: Table, timeCol: string, idx: seq<nat>, attributes: seq<string>, messageType: string,
                  limit: Option<int>, show: Cell -> string)
    requires forall k :: 0 <= k < |idx| ==> idx[k] < |t.columns|
    requires ShapeChart(t, timeCol, idx, attributes, messageType, limit, show).Ok?
    ensures var cd := ShapeChart(t, timeCol, idx, attributes, messageType, limit, show).value;
      && |cd.data| == |LimitClause(t.rows, limit)| > 0
      && forall i :: 0 <= i < |cd.data| ==>
           && |cd.data[i]| == |idx|
           && forall k :: 0 <= k < |idx| ==> cd.data[i][k] == CellAt(t.rows[i], idx[k])
  {
    var rows := LimitClause(t.rows, limit);
    var data := Project(rows, idx);
    assert ShapeChart(t, timeCol, idx, attributes, messageType, limit, show).value.data == data;
    assert forall i :: 0 <= i < |rows| ==> rows[i] == t.rows[i];
  }

  /** A positive limit keeps that many rows when the table has more; no limit,
      a zero limit and a negative limit keep every row. */
  lemma ChartDataRowCount(db: Db, messageType: string, attributes: seq<string>, limit: Option<int>,
                          show: Cell -> string)
    requires GetChartData(db, messageType, attributes, limit, show).Ok?
    ensures TableOf(db, messageType).Some?
    ensures |GetChartData(db, messageType, attributes, limit, show).value.data| ==
      if limit.Some? && 0 < limit.value < |TableOf(db, messageType).value.rows| then limit.value else |TableOf(db, messageType).value.rows|
  {
    var timeCol, idx := ChartDataOk(db, messageType, attributes, limit, show);
  }

  /** `"No data found"` is returned exactly when the time column exists, every
      selected name refers to a column, and the table has no rows. */
  lemma ChartDataNoData(db: Db, messageType: string, attributes: seq<string>, limit: Option<int>,
                        show: Cell -> string)
    ensures GetChartData(db, messageType, attributes, limit, show) == Failure(NoData) <==>
      && TimeColumnOf(db, messageType).Some?
      && ResolveAll(TableOf(db, messageType).value.columns, [TimeColumnOf(db, messageType).value] + attributes).Ok?
      && TableOf(db, messageType).value.rows == []
  {
    if TableOf(db, messageType).Some? && GetTimeColumn(TableOf(db, messageType).value.columns).Some?
       && ResolveAll(TableOf(db, messageType).value.columns, [TimeColumnOf(db, messageType).value] + attributes).Ok? {
      var timeCol, idx := ChartDataShaped(db, messageType, attributes, limit, show);
      ShapeNoData(TableOf(db, messageType).value, timeCol, idx, attributes, messageType, limit, show);
    } else {
      ChartDataNoTimeColumn(db, messageType, attributes, limit, show);
    }
  }

  /** Shaping reports no data exactly when the table has no rows: a limit
      never empties a table that has some. */
  lemma ShapeNoData(t: Table, timeCol: string, idx: seq<nat>, attributes: seq<string>, messageType: string,
                    limit: Option<int>, show: Cell -> string)
    requires forall k :: 0 <= k < |idx| ==> idx[k] < |t.columns|
    ensures ShapeChart(t, timeCol, idx, attributes, messageType, limit, show) == Failure(NoData) <==> t.rows == []
  {
    var rows := LimitClause(t.rows, limit);
    assert |rows| == 0 <==> t.rows == [];
    assert |Project(rows, idx)| == |rows|;
    ShapeChartErrors(t, timeCol, idx, attributes, messageType, limit, show);
  }

  /** In a table whose column names SQLite accepts, the time column is the
      first label, and the MM:SS labels are produced exactly when its
      lower-cased name contains "timeus", one per row from that row's time
      value; otherwise each label is the raw value's string. */
  lemma ChartDataTimeFormatted(db: Db, messageType: string, attributes: seq<string>, limit: Option<int>,
                               show: Cell -> string)
    requires GetChartData(db, messageType, attributes, limit, show).Ok?
    requires TableOf(db, messageType).Some?
    ensures var cd := GetChartData(db, messageType, attributes, limit, show).value;
      var timeCol := TimeColumnOf(db, messageType).value;
      && cd.labels[0] == timeCol
      && |cd.timeFormatted| == |cd.data|
      && forall i :: 0 <= i < |cd.data| ==>
           if IsTimeUs(timeCol) then NumberOf(cd.data[i][0]).Some?
                                     && cd.timeFormatted[i] == FormatTime(NumberOf(cd.data[i][0]).value)
           else cd.timeFormatted[i] == show(cd.data[i][0])
  {
    var timeCol, idx := ChartDataOk(db, messageType, attributes, limit, show);
    var t := TableOf(db, messageType).value;
    SelectionLabels(t.columns, timeCol, attributes, idx);
    ShapeTimeFormatted(t, timeCol, idx, attributes, messageType, limit, show);
  }

  /** When the time column labels the first selected column, a shaped result
      formats each row's first cell. */
  lemma ShapeTimeFormatted(t: Table, timeCol: string, idx: seq<nat>, attributes: seq<string>, messageType: string,
                           limit: Option<int>, show: Cell -> string)
    requires forall k :: 0 <= k < |idx| ==> idx[k] < |t.columns|
    requires |idx| > 0 && Labels(t.columns, idx)[0] == timeCol
    requires ShapeChart(t, timeCol, idx, attributes, messageType, limit, show).Ok?
    ensures var cd := ShapeChart(t, timeCol, idx, attributes, messageType, limit, show).value;
      && cd.labels[0] == timeCol
      && |cd.timeFormatted| == |cd.data|
      && forall i :: 0 <= i < |cd.data| ==>
           if IsTimeUs(timeCol) then NumberOf(cd.data[i][0]).Some?
                                     && cd.timeFormatted[i] == FormatTime(NumberOf(cd.data[i][0]).value)
           else cd.timeFormatted[i] == show(cd.data[i][0])
  {
    var data := Project(LimitClause(t.rows, limit), idx);
    var labels := Labels(t.columns, idx);
    assert IndexOf(labels, timeCol) == 0;
    var cells := ColumnCells(data, 0);
    assert forall i :: 0 <= i < |data| ==> cells[i] == data[i][0];
  }

  /** Once the time column is found and every name resolves, the call only
      shapes the query's result. */
  lemma ChartDataShaped(db: Db, messageType: string, attributes: seq<string>, limit: Option<int>,
                        show: Cell -> string) returns (timeCol: string, idx: seq<nat>)
    requires TableOf(db, messageType).Some? && TimeColumnOf(db, messageType).Some?
    requires ResolveAll(TableOf(db, messageType).value.columns, [TimeColumnOf(db, messageType).value] + attributes).Ok?
    ensures timeCol == TimeColumnOf(db, messageType).value && timeCol in TableOf(db, messageType).value.columns
    ensures ResolveAll(TableOf(db, messageType).value.columns, [timeCol] + attributes) == Ok(idx)
    ensures forall k :: 0 <= k < |idx| ==> idx[k] < |TableOf(db, messageType).value.columns|
    ensures GetChartData(db, messageType, attributes, limit, show) ==
            ShapeChart(TableOf(db, messageType).value, timeCol, idx, attributes, messageType, limit, show)
  {
    timeCol := TimeColumnOf(db, messageType).value;
    idx := ResolveAll(TableOf(db, messageType).value.columns, [timeCol] + attributes).value;
  }

  /** Among column names SQLite accepts, a selected name is labelled with a
      column's declared name exactly when it refers to that column. */
  lemma LabelRefersTo(columns: seq<string>, names: seq<string>, idx: seq<nat>, k: nat, p: nat)
    requires CaseDistinct(columns) && p < |columns| && k < |names|
    requires ResolveAll(columns, names) == Ok(idx)
    ensures idx[k] < |columns|
    ensures columns[idx[k]] == columns[p] <==> SameIdentifier(names[k], columns[p])
    ensures idx[k] == p <==> SameIdentifier(names[k], columns[p])
  {
    if SameIdentifier(names[k], columns[p]) {
      ResolveUnique(columns, names[k], p);
    }
  }

  /** A sequence starting with `x` holds it once exactly when its tail lacks it. */
  lemma CountOfHead(xs: seq<string>, x: string)
    requires |xs| > 0 && xs[0] == x
    ensures multiset(xs)[x] == 1 <==> x !in xs[1..]
  {
    assert xs == [x] + xs[1..];
  }

  /** Among column names SQLite accepts, selecting a column and then some
      names labels the result with that column first, and its label occurs
      exactly once unless one of the names refers to it again. */
  lemma SelectionLabels(columns: seq<string>, first: string, names: seq<string>, idx: seq<nat>)
    requires CaseDistinct(columns) && first in columns
    requires ResolveAll(columns, [first] + names) == Ok(idx)
    ensures forall k :: 0 <= k < |idx| ==> idx[k] < |columns|
    ensures Labels(columns, idx)[0] == first
    ensures multiset(Labels(columns, idx))[first] == 1 <==> forall a :: a in names ==> !SameIdentifier(a, first)
  {
    var labels := Labels(columns, idx);
    var p :| 0 <= p < |columns| && columns[p] == first;
    LabelRefersTo(columns, [first] + names, idx, 0, p);
    var tail := labels[1..];
    forall k | 0 <= k < |names|
      ensures tail[k] == first <==> SameIdentifier(names[k], first)
    {
      TailLabelAt(columns, first, names, idx, p, k);
    }
    TailLacks(tail, names, first);
    CountOfHead(labels, first);
  }


  /** A label after the first is the first column's label exactly when its
      selected name refers to that column. */
  lemma TailLabelAt(columns: seq<string>, first: string, names: seq<string>, idx: seq<nat>, p: nat, k: nat)
    requires CaseDistinct(columns) && p < |columns| && columns[p] == first && k < |names|
    requires ResolveAll(columns, [first] + names) == Ok(idx)
    ensures Labels(columns, idx)[k + 1] == first <==> SameIdentifier(names[k], first)
  {
    var selected := [first] + names;
    assert selected[k + 1] == names[k];
    LabelRefersTo(columns, selected, idx, k + 1, p);
  }

  /** A label sequence matched pointwise against the names lacks `first`
      exactly when no name refers to it. */
  lemma TailLacks(tail: seq<string>, names: seq<string>, first: string)
    requires |tail| == |names|
    requires forall k :: 0 <= k < |names| ==> (tail[k] == first <==> SameIdentifier(names[k], first))
    ensures first !in tail <==> forall a :: a in names ==> !SameIdentifier(a, first)
  {
    if first in tail {
      var k :| 0 <= k < |tail| && tail[k] == first;
      assert names[k] in names;
    }
  }

  /** Among column names SQLite accepts, the time column's label occurs more
      than once, and the call fails, exactly when an attribute names the time
      column again (in any case). */
  lemma ChartDataAmbiguous(db: Db, messageType: string, attributes: seq<string>, limit: Option<int>,
                           show: Cell -> string)
    requires TableOf(db, messageType).Some? && TableOf(db, messageType).value.rows != []
    requires TimeColumnOf(db, messageType).Some?
    requires ResolveAll(TableOf(db, messageType).value.columns, [TimeColumnOf(db, messageType).value] + attributes).Ok?
    ensures var timeCol := TimeColumnOf(db, messageType).value;
      GetChartData(db, messageType, attributes, limit, show) == Failure(AmbiguousColumn(timeCol)) <==>
        exists a :: a in attributes && SameIdentifier(a, timeCol)
  {
    var timeCol, idx := ChartDataShaped(db, messageType, attributes, limit, show);
    var t := TableOf(db, messageType).value;
    SelectionLabels(t.columns, timeCol, attributes, idx);
    ShapeAmbiguous(t, timeCol, idx, attributes, messageType, limit, show);
  }

  /** Over a table with rows, shaping reports an ambiguous time column exactly
      when its label does not occur once. */
  lemma ShapeAmbiguous(t: Table, timeCol: string, idx: seq<nat>, attributes: seq<string>, messageType: string,
                       limit: Option<int>, show: Cell -> string)
    requires forall k :: 0 <= k < |idx| ==> idx[k] < |t.columns|
    requires t.rows != []
    ensures ShapeChart(t, timeCol, idx, attributes, messageType, limit, show) == Failure(AmbiguousColumn(timeCol)) <==>
            multiset(Labels(t.columns, idx))[timeCol] != 1
  {
    ShapeNoData(t, timeCol, idx, attributes, messageType, limit, show);
  }

  /** Over a microsecond time column that no attribute names again, the call
      fails on a bad time value exactly when a row the query returns has a
      null or text time. */
  lemma ChartDataBadTimeValue(db: Db, messageType: string, attributes: seq<string>, limit: Option<int>,
                              show: Cell -> string)
    requires TableOf(db, messageType).Some?
    requires TimeColumnOf(db, messageType).Some? && IsTimeUs(TimeColumnOf(db, messageType).value)
    requires ResolveAll(TableOf(db, messageType).value.columns, [TimeColumnOf(db, messageType).value] + attributes).Ok?
    requires forall a :: a in attributes ==> !SameIdentifier(a, TimeColumnOf(db, messageType).value)
    ensures var timeCol := TimeColumnOf(db, messageType).value;
      var rows := LimitClause(TableOf(db, messageType).value.rows, limit);
      GetChartData(db, messageType, attributes, limit, show) == Failure(BadTimeValue) <==>
        exists i :: 0 <= i < |rows| && NumberOf(CellAt(rows[i], IndexOf(TableOf(db, messageType).value.columns, timeCol))).None?
  {
    var timeCol, idx := ChartDataShaped(db, messageType, attributes, limit, show);
    var t := TableOf(db, messageType).value;
    SelectionLabels(t.columns, timeCol, attributes, idx);
    var p := IndexOf(t.columns, timeCol);
    LabelRefersTo(t.columns, [timeCol] + attributes, idx, 0, p);
    ShapeBadTimeValue(t, timeCol, idx, attributes, messageType, limit, show);
  }

  /** With the microsecond time column labelled once and first, shaping
      reports a bad time value exactly when a returned row has a null or text
      value in that column. */
  lemma ShapeBadTimeValue(t: Table, timeCol: string, idx: seq<nat>, attributes: seq<string>, messageType: string,
                          limit: Option<int>, show: Cell -> string)
    requires forall k :: 0 <= k < |idx| ==> idx[k] < |t.columns|
    requires |idx| > 0 && Labels(t.columns, idx)[0] == timeCol && multiset(Labels(t.columns, idx))[timeCol] == 1
    requires IsTimeUs(timeCol)
    ensures var rows := LimitClause(t.rows, limit);
      ShapeChart(t, timeCol, idx, attributes, messageType, limit, show) == Failure(BadTimeValue) <==>
        exists i :: 0 <= i < |rows| && NumberOf(CellAt(rows[i], idx[0])).None?
  {
    var rows := LimitClause(t.rows, limit);
    var data := Project(rows, idx);
    var labels := Labels(t.columns, idx);
    assert IndexOf(labels, timeCol) == 0;
    var cells := ColumnCells(data, 0);
    assert forall i :: 0 <= i < |rows| ==> cells[i] == CellAt(rows[i], idx[0]);
  }

  /** What the model keeps of one entry of `calculate_data_statistics`:
      `min`, `max` (NaN, here `None`, for a column with no value) and
      `count`; `mean` and `std` are floating-point results not modelled. */
  datatype Stats = Stats(min: Option<real>, max: Option<real>, count: nat)

  /** The numbers in a column, in row order, nulls and text skipped. */
  function Numbers(cells: seq<Cell>): (r: seq<real>)
    ensures |r| <= |cells|
    ensures forall x :: x in r <==> exists k :: 0 <= k < |cells| && NumberOf(cells[k]) == Some(x)
  {
    if cells == [] then []
    else
      var rest := Numbers(cells[1..]);
      assert forall k :: 0 < k < |cells| ==> cells[k] == cells[1..][k - 1];
      match NumberOf(cells[0])
      case None => rest
      case Some(x) => [x] + rest
  }

  /** Without text cells, the numbers are the non-null cells. */
  lemma {:induction false} NumbersCount(cells: seq<Cell>)
    requires forall k :: 0 <= k < |cells| ==> !cells[k].Str?
    ensures |Numbers(cells)| == |NonNull(cells)|
  {
    if cells != [] {
      NumbersCount(cells[1..]);
    }
  }

  /** The smallest value, `None` for none. */
  function MinOf(xs: seq<real>): (r: Option<real>)
    ensures r.None? <==> xs == []
    ensures r.Some? ==> r.value in xs && forall x :: x in xs ==> r.value <= x
  {
    if xs == [] then None
    else
      assert forall x :: x in xs ==> x == xs[0] || x in xs[1..];
      match MinOf(xs[1..])
      case None => Some(xs[0])
      case Some(m) => Some(if xs[0] <= m then xs[0] else m)
  }

  /** The largest value, `None` for none. */
  function MaxOf(xs: seq<real>): (r: Option<real>)
    ensures r.None? <==> xs == []
    ensures r.Some? ==> r.value in xs && forall x :: x in xs ==> x <= r.value
  {
    if xs == [] then None
    else
      assert forall x :: x in xs ==> x == xs[0] || x in xs[1..];
      match MaxOf(xs[1..])
      case None => Some(xs[0])
      case Some(m) => Some(if m <= xs[0] then xs[0] else m)
  }

  /** `df[attr].min()`, `.max()` and `.count()`; a text value makes the
      reductions raise. */
  function ColumnStats(name: string, cells: seq<Cell>): Result<Stats>
  {
    if exists k :: 0 <= k < |cells| && cells[k].Str? then Failure(NotNumeric(name))
    else
      var numbers := Numbers(cells);
      Ok(Stats(MinOf(numbers), MaxOf(numbers), |numbers|))
  }

  /** A summary counts the non-null values and bounds them by its minimum and
      maximum, both of which occur in the column; an all-null column has
      neither; a text value is refused. */
  lemma ColumnStatsSummary(name: string, cells: seq<Cell>)
    ensures ColumnStats(name, cells).Failure? <==> exists k :: 0 <= k < |cells| && cells[k].Str?
    ensures ColumnStats(name, cells).Failure? ==> ColumnStats(name, cells).error == NotNumeric(name)
    ensures ColumnStats(name, cells).Ok? ==>
      var s := ColumnStats(name, cells).value;
      && s.count == |NonNull(cells)|
      && (s.min.Some? <==> s.count > 0) && (s.max.Some? <==> s.count > 0)
      && (s.count > 0 ==> s.min.value <= s.max.value)
      && (forall k :: 0 <= k < |cells| && NumberOf(cells[k]).Some? ==>
            s.min.value <= NumberOf(cells[k]).value <= s.max.value)
      && (s.count > 0 ==>
            (exists k :: 0 <= k < |cells| && NumberOf(cells[k]) == s.min)
            && (exists l :: 0 <= l < |cells| && NumberOf(cells[l]) == s.max))
  {
    if ColumnStats(name, cells).Ok? {
      NumbersCount(cells);
      var numbers := Numbers(cells);
      forall k | 0 <= k < |cells| && NumberOf(cells[k]).Some?
        ensures NumberOf(cells[k]).value in numbers
      {
      }
    }
  }

  /** One turn of the loop over `attributes`: an attribute whose exact
      spelling is not a label is skipped. */
  function StatsStep(m: map<string, Stats>, attr: string, labels: seq<string>, data: seq<seq<Cell>>): Result<map<string, Stats>>
  {
    if attr !in labels then Ok(m)
    else if multiset(labels)[attr] > 1 then Failure(AmbiguousColumn(attr))
    else match ColumnStats(attr, ColumnCells(data, IndexOf(labels, attr)))
      case Failure(e) => Failure(e)
      case Ok(s) => Ok(m[attr := s])
  }

  /** The dictionary after the first `k` attributes, or the first error. */
  function StatsUpTo(attributes: seq<string>, labels: seq<string>, data: seq<seq<Cell>>, k: nat): Result<map<string, Stats>>
    requires k <= |attributes|
  {
    if k == 0 then Ok(map[])
    else match StatsUpTo(attributes, labels, data, k - 1)
      case Failure(e) => Failure(e)
      case Ok(m) => StatsStep(m, attributes[k - 1], labels, data)
  }

  /** `calculate_data_statistics(conn, message_type, attributes)`. */
  function DataStatistics(db: Db, messageType: string, attributes: seq<string>): Result<map<string, Stats>>
  {
    if attributes == [] then Failure(EmptySelection)
    else if TableOf(db, messageType).None? then Failure(NoSuchTable(messageType))
    else
      var t := TableOf(db, messageType).value;
      match ResolveAll(t.columns, attributes)
      case Failure(e) => Failure(e)
      case Ok(idx) =>
        var data := Project(t.rows, idx);
        if data == [] then Failure(NoData)
        else StatsUpTo(attributes, Labels(t.columns, idx), data, |attributes|)
  }

  /** Once an attribute fails, the later ones are not looked at. */
  lemma {:induction false} StatsFailureSticks(attributes: seq<string>, labels: seq<string>, data: seq<seq<Cell>>,
                                              j: nat, k: nat)
    requires j <= k <= |attributes| && StatsUpTo(attributes, labels, data, j).Failure?
    ensures StatsUpTo(attributes, labels, data, k) == StatsUpTo(attributes, labels, data, j)
    decreases k
  {
    if j < k {
      StatsFailureSticks(attributes, labels, data, j, k - 1);
    }
  }

  /** One more attribute is one more step of the loop. */
  lemma StatsUpToNext(attributes: seq<string>, labels: seq<string>, data: seq<seq<Cell>>, i: nat,
                      stats: map<string, Stats>)
    requires i < |attributes| && StatsUpTo(attributes, labels, data, i) == Ok(stats)
    ensures StatsUpTo(attributes, labels, data, i + 1) == StatsStep(stats, attributes[i], labels, data)
  {
  }

  method CalculateDataStatistics(db: Db, messageType: string, attributes: seq<string>)
    returns (r: Result<map<string, Stats>>)
    ensures r == DataStatistics(db, messageType, attributes)
  {
    if attributes == [] {
      return Failure(EmptySelection);
    }
    if TableOf(db, messageType).None? {
      return Failure(NoSuchTable(messageType));
    }
    var t := TableOf(db, messageType).value;
    var resolved := ResolveAll(t.columns, attributes);
    if resolved.Failure? {
      return Failure(resolved.error);
    }
    var labels := Labels(t.columns, resolved.value);
    var data := Project(t.rows, resolved.value);
    if data == [] {
      return Failure(NoData);
    }
    r := SummariseColumns(attributes, labels, data);
  }

  /** The loop over the attributes: each one found among the labels gets its
      column's summary; the first failure ends the call. */
  method SummariseColumns(attributes: seq<string>, labels: seq<string>, data: seq<seq<Cell>>)
    returns (r: Result<map<string, Stats>>)
    ensures r == StatsUpTo(attributes, labels, data, |attributes|)
  {
    var stats := map[];
    for i := 0 to |attributes|
      invariant StatsUpTo(attributes, labels, data, i) == Ok(stats)
    {
      var attr := attributes[i];
      StatsUpToNext(attributes, labels, data, i, stats);
      if attr in labels {
        if multiset(labels)[attr] > 1 {
          StatsFailureSticks(attributes, labels, data, i + 1, |attributes|);
          return Failure(AmbiguousColumn(attr));
        }
        var summary := ColumnStats(attr, ColumnCells(data, IndexOf(labels, attr)));
        if summary.Failure? {
          StatsFailureSticks(attributes, labels, data, i + 1, |attributes|);
          return Failure(summary.error);
        }
        stats := stats[attr := summary.value];
      }
    }
    return Ok(stats);
  }

  /** After `k` attributes the dictionary holds exactly the attributes among
      them that are labels, each once in the result and summarised from its
      own column. */
  lemma {:induction false} StatsUpToEntries(attributes: seq<string>, labels: seq<string>, data: seq<seq<Cell>>, k: nat)
    requires k <= |attributes| && StatsUpTo(attributes, labels, data, k).Ok?
    ensures var m := StatsUpTo(attributes, labels, data, k).value;
      && (forall a :: a in m <==> a in attributes[..k] && a in labels)
      && (forall a :: a in m ==> multiset(labels)[a] == 1
                                 && Ok(m[a]) == ColumnStats(a, ColumnCells(data, IndexOf(labels, a))))
  {
    if k > 0 {
      StatsUpToEntries(attributes, labels, data, k - 1);
      assert attributes[..k] == attributes[..k - 1] + [attributes[k - 1]];
    }
  }

  /** Among column names SQLite accepts, a selected name appears among the
      labels exactly when it is spelled as declared, and a label's position in
      the result leads back to its column. */
  lemma LabelsOfSelection(columns: seq<string>, names: seq<string>, idx: seq<nat>)
    requires CaseDistinct(columns) && ResolveAll(columns, names) == Ok(idx)
    ensures forall k :: 0 <= k < |idx| ==> idx[k] < |columns|
    ensures forall a :: a in names ==> (a in Labels(columns, idx) <==> a in columns)
    ensures forall a :: a in Labels(columns, idx) ==>
      a in columns && idx[IndexOf(Labels(columns, idx), a)] == IndexOf(columns, a)
  {
    var labels := Labels(columns, idx);
    forall a | a in names && a in columns
      ensures a in labels
    {
      var k :| 0 <= k < |names| && names[k] == a;
      LabelRefersTo(columns, names, idx, k, IndexOf(columns, a));
      assert labels[k] == a;
    }
    forall a | a in labels
      ensures a in columns && idx[IndexOf(labels, a)] == IndexOf(columns, a)
    {
      var j := IndexOf(labels, a);
      LabelRefersTo(columns, names, idx, j, IndexOf(columns, a));
    }
  }

  /** A successful call passed every gate before the loop. */
  lemma StatisticsOk(db: Db, messageType: string, attributes: seq<string>) returns (idx: seq<nat>)
    requires DataStatistics(db, messageType, attributes).Ok?
    ensures TableOf(db, messageType).Some? && TableOf(db, messageType).value.rows != []
    ensures ResolveAll(TableOf(db, messageType).value.columns, attributes) == Ok(idx)
    ensures forall k :: 0 <= k < |idx| ==> idx[k] < |TableOf(db, messageType).value.columns|
    ensures StatsUpTo(attributes, Labels(TableOf(db, messageType).value.columns, idx), Project(TableOf(db, messageType).value.rows, idx), |attributes|)
            == DataStatistics(db, messageType, attributes)
  {
    idx := ResolveAll(TableOf(db, messageType).value.columns, attributes).value;
  }

  /** Among column names SQLite accepts, the statistics cover exactly the
      requested attributes spelled as the table declares them: one spelled in
      another case is queried but silently left out. */
  lemma StatisticsKeys(db: Db, messageType: string, attributes: seq<string>)
    requires DataStatistics(db, messageType, attributes).Ok?
    requires TableOf(db, messageType).Some?
    ensures forall a :: a in DataStatistics(db, messageType, attributes).value <==>
                        a in attributes && a in TableOf(db, messageType).value.columns
  {
    var idx := StatisticsOk(db, messageType, attributes);
    var t := TableOf(db, messageType).value;
    var labels := Labels(t.columns, idx);
    StatsUpToEntries(attributes, labels, Project(t.rows, idx), |attributes|);
    LabelsOfSelection(t.columns, attributes, idx);
    assert attributes[..|attributes|] == attributes;
  }

  /** Among column names SQLite accepts, each entry summarises its own column
      over every row of the table. */
  lemma StatisticsEntry(db: Db, messageType: string, attributes: seq<string>, a: string)
    requires DataStatistics(db, messageType, attributes).Ok?
    requires TableOf(db, messageType).Some?
    requires a in DataStatistics(db, messageType, attributes).value
    ensures a in TableOf(db, messageType).value.columns
    ensures Ok(DataStatistics(db, messageType, attributes).value[a]) ==
            ColumnStats(a, ColumnCells(TableOf(db, messageType).value.rows, IndexOf(TableOf(db, messageType).value.columns, a)))
  {
    var idx := StatisticsOk(db, messageType, attributes);
    var t := TableOf(db, messageType).value;
    var labels := Labels(t.columns, idx);
    var data := Project(t.rows, idx);
    StatsUpToEntries(attributes, labels, data, |attributes|);
    LabelsOfSelection(t.columns, attributes, idx);
    var j := IndexOf(labels, a);
    assert ColumnCells(data, j) == ColumnCells(t.rows, IndexOf(t.columns, a));
  }

  /** The error cases, in the order the call meets them: an empty selection,
      a missing table, an unknown column, then a table with no rows. */
  lemma StatisticsErrors(db: Db, messageType: string, attributes: seq<string>)
    ensures DataStatistics(db, messageType, attributes) == Failure(EmptySelection) <==> attributes == []
    ensures DataStatistics(db, messageType, attributes) == Failure(NoSuchTable(messageType)) <==>
      attributes != [] && TableOf(db, messageType).None?
    ensures DataStatistics(db, messageType, attributes).Failure? &&
            DataStatistics(db, messageType, attributes).error.NoSuchColumn? <==>
      attributes != [] && TableOf(db, messageType).Some? && ResolveAll(TableOf(db, messageType).value.columns, attributes).Failure?
    ensures DataStatistics(db, messageType, attributes) == Failure(NoData) <==>
      attributes != [] && TableOf(db, messageType).Some? && ResolveAll(TableOf(db, messageType).value.columns, attributes).Ok?
      && TableOf(db, messageType).value.rows == []
  {
    if attributes != [] && TableOf(db, messageType).Some? && ResolveAll(TableOf(db, messageType).value.columns, attributes).Ok?
       && TableOf(db, messageType).value.rows != [] {
      var t := TableOf(db, messageType).value;
      var idx := ResolveAll(t.columns, attributes).value;
      StatsUpToErrors(attributes, Labels(t.columns, idx), Project(t.rows, idx), |attributes|);
    }
  }

  /** The loop itself only fails on an ambiguous label or a text value. */
  lemma {:induction false} StatsUpToErrors(attributes: seq<string>, labels: seq<string>, data: seq<seq<Cell>>, k: nat)
    requires k <= |attributes|
    ensures StatsUpTo(attributes, labels, data, k).Failure? ==>
      StatsUpTo(attributes, labels, data, k).error.AmbiguousColumn? ||
      StatsUpTo(attributes, labels, data, k).error.NotNumeric?
  {
    if k > 0 {
      StatsUpToErrors(attributes, labels, data, k - 1);
    }
  }

  /** `Alt` of table `GPS` requested as `alt` of `gps`: SQLite finds the table
      and the column whatever their case, the result's label is `Alt`, and
      the attribute is left out of the statistics. */
  lemma StatisticsCaseMismatchExample(db: Db)
    requires db == map["GPS" := Table(["TimeUS", "Alt"], [[Int(1), Int(10)]])]
    ensures DataStatistics(db, "gps", ["alt"]) == Ok(map[])
  {
    var t := Table(["TimeUS", "Alt"], [[Int(1), Int(10)]]);
    assert ToLower("GPS") == "gps" == ToLower("gps");
    assert SameIdentifier("GPS", "gps") && "GPS" in db;
    assert TableOf(db, "gps") == Some(t);
    assert ToLower("Alt") == "alt" && ToLower("alt") == "alt";
    assert !SameIdentifier("TimeUS", "alt");
    assert Resolve(t.columns, "alt") == Some(1);
    assert ["alt"][1..] == [];
    assert ResolveAll(t.columns, []) == Ok([]);
    assert [1] + [] == [1];
    assert ResolveAll(t.columns, ["alt"]) == Ok([1]);
    assert Labels(t.columns, [1]) == ["Alt"];
    assert "alt"[0] != "Alt"[0];
    assert StatsUpTo(["alt"], ["Alt"], Project(t.rows, [1]), 1) == Ok(map[]);
  }
}
