/** Choosing the time axis of a table: `get_time_column`. */
module TimeColumn {
  import opened Text
  import opened Store

  /** The time-name patterns, highest priority first. */
  const TimePatterns: seq<string> := ["TimeUS", "timestamp", "time_boot_ms", "time", "Time"]

  /** `pattern.lower() in col.lower()`. */
  predicate Matches(column: string, pattern: string)
  {
    Contains(ToLower(column), ToLower(pattern))
  }

  /** The position of the first column, in stored order, that holds `pattern`. */
  function FirstMatching(columns: seq<string>, pattern: string): (r: Option<nat>)
    ensures r.Some? ==> r.value < |columns| && Matches(columns[r.value], pattern)
    ensures r.Some? ==> forall k :: 0 <= k < r.value ==> !Matches(columns[k], pattern)
    ensures r.None? ==> forall k :: 0 <= k < |columns| ==> !Matches(columns[k], pattern)
  {
    if columns == [] then None
    else if Matches(columns[0], pattern) then Some(0)
    else match FirstMatching(columns[1..], pattern)
      case None => None
      case Some(k) => Some(k + 1)
  }

  /** The outer loop over the patterns: the pattern and column positions of
      the first hit. */
  function Search(columns: seq<string>, patterns: seq<string>): (r: Option<(nat, nat)>)
    ensures r.Some? ==> r.value.0 < |patterns| && r.value.1 < |columns|
    ensures r.Some? ==> Matches(columns[r.value.1], patterns[r.value.0])
    ensures r.Some? ==> forall q, k :: 0 <= q < r.value.0 && 0 <= k < |columns| ==>
                          !Matches(columns[k], patterns[q])
    ensures r.Some? ==> forall k :: 0 <= k < r.value.1 ==> !Matches(columns[k], patterns[r.value.0])
    ensures r.None? ==> forall q, k :: 0 <= q < |patterns| && 0 <= k < |columns| ==>
                          !Matches(columns[k], patterns[q])
  {
    if patterns == [] then None
    else match FirstMatching(columns, patterns[0])
      case Some(k) => Some((0, k))
      case None =>
        match Search(columns, patterns[1..])
        case None => None
        case Some((q, k)) => Some((q + 1, k))
  }

  /** `get_time_column` over a table's column names. */
  function GetTimeColumn(columns: seq<string>): (r: Option<string>)
    ensures r.Some? ==> r.value in columns
  {
    match Search(columns, TimePatterns)
    case None => None
    case Some((_, k)) => Some(columns[k])
  }

  /** `get_time_column(conn, table_name)`: a missing table has no columns. */
  function TimeColumnOf(db: Db, name: string): Option<string>
  {
    GetTimeColumn(ColumnsOf(db, name))
  }

  /** The resolver's choice, stated without the search: the chosen column matches
      pattern `p`, no column matches a pattern before `p`, and no column before it
      matches `p`. A higher-priority pattern therefore wins over column order. */
  lemma TimeColumnIsPriorityChoice(columns: seq<string>)
    ensures GetTimeColumn(columns).Some? ==>
      exists p, k :: 0 <= p < |TimePatterns| && 0 <= k < |columns|
        && GetTimeColumn(columns).value == columns[k]
        && Matches(columns[k], TimePatterns[p])
        && (forall q, j :: 0 <= q < p && 0 <= j < |columns| ==> !Matches(columns[j], TimePatterns[q]))
        && (forall j :: 0 <= j < k ==> !Matches(columns[j], TimePatterns[p]))
    ensures GetTimeColumn(columns).None? ==>
      forall q, j :: 0 <= q < |TimePatterns| && 0 <= j < |columns| ==> !Matches(columns[j], TimePatterns[q])
  {
    match Search(columns, TimePatterns)
    case None =>
    case Some((p, k)) =>
      assert GetTimeColumn(columns).value == columns[k];
  }

  lemma PatternsHoldTime()
    ensures forall q :: 0 <= q < |TimePatterns| ==> Contains(ToLower(TimePatterns[q]), "time")
  {
    forall q | 0 <= q < |TimePatterns|
      ensures Contains(ToLower(TimePatterns[q]), "time")
    {
      var lower := ToLower(TimePatterns[q]);
      assert lower[..4] == "time";
      assert IsPrefix("time", lower);
    }
  }

  /** Every pattern holds "time" and "time" is itself a pattern, so a table has a
      time column exactly when some column name holds "time" in any case; the
      chosen name is then never empty, so the source's `not time_col` test means
      "none found". */
  lemma TimeColumnNoneIff(columns: seq<string>)
    ensures GetTimeColumn(columns).None? <==>
            forall j :: 0 <= j < |columns| ==> !Contains(ToLower(columns[j]), "time")
    ensures GetTimeColumn(columns).Some? ==> Contains(ToLower(GetTimeColumn(columns).value), "time")
    ensures GetTimeColumn(columns).Some? ==> |GetTimeColumn(columns).value| >= 4
  {
    PatternsHoldTime();
    assert ToLower("time") == "time";
    assert TimePatterns[3] == "time";
    match Search(columns, TimePatterns)
    case Some((p, k)) =>
      ContainsTransitive(ToLower(columns[k]), ToLower(TimePatterns[p]), "time");
      var i := ContainsWitness(ToLower(columns[k]), "time");
    case None =>
      forall j | 0 <= j < |columns| ensures !Contains(ToLower(columns[j]), "time") {
        assert !Matches(columns[j], TimePatterns[3]);
      }
  }

  /** The microsecond counter outranks the boot-time pattern even when it comes
      later in column order. */
  lemma PatternPriorityExample()
    ensures GetTimeColumn(["foo_time_boot_ms", "TimeUS"]) == Some("TimeUS")
  {
    var columns := ["foo_time_boot_ms", "TimeUS"];
    assert ToLower("TimeUS") == "timeus";
    assert Matches(columns[1], "TimeUS") by {
      assert IsPrefix("timeus", "timeus");
    }
    BootTimeLacksTimeUS();
    assert FirstMatching(columns, "TimeUS") == Some(1) by {
      assert columns[1..] == ["TimeUS"];
    }
  }

  /** "foo_time_boot_ms" holds no "timeus": it has no 'u' at all. */
  lemma BootTimeLacksTimeUS()
    ensures !Matches("foo_time_boot_ms", "TimeUS")
  {
    var s := "foo_time_boot_ms";
    ToLowerIdentity(s);
    assert ToLower("TimeUS") == "timeus";
    assert forall j :: 0 <= j < |s| ==> s[j] != 'u';
    ContainsChars(s, "timeus", 4, 4);
  }
}
