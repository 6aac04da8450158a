/** The catalogue of plottable attributes per table: `get_all_dynamic_attributes`. */
module Catalog {
  import opened Store
  import opened TimeColumn
  import opened Numeric
  import opened Annotate

  /** What the catalogue records for one qualifying table. */
  datatype AttributeDescriptor = AttributeDescriptor(
    timeCol: string,
    attributes: seq<string>,
    units: map<string, string>,
    descriptions: map<string, string>,
    rowCount: nat)

  /** `[col for col in xs if col != x]`. */
  function Without(xs: seq<string>, x: string): (r: seq<string>)
    ensures x !in r
    ensures forall y :: y in r <==> y in xs && y != x
  {
    if xs == [] then []
    else Without(xs[..|xs| - 1], x) + (if xs[|xs| - 1] == x then [] else [xs[|xs| - 1]])
  }

  /** Removing one name keeps the others in their order. */
  lemma {:induction false} WithoutSubsequence(xs: seq<string>, x: string) returns (idx: seq<int>)
    ensures SubsequenceBy(Without(xs, x), xs, idx)
    ensures forall k :: 0 <= k < |idx| ==> idx[k] < |xs|
  {
    if xs == [] {
      idx := [];
    } else {
      var init := xs[..|xs| - 1];
      idx := WithoutSubsequence(init, x);
      SubsequenceSnoc(Without(init, x), xs, idx);
      if xs[|xs| - 1] != x {
        idx := idx + [|xs| - 1];
      }
    }
  }

  /** Annotating one more attribute adds exactly its entry. */
  lemma UnitsOfSnoc(attributes: seq<string>, a: string)
    ensures UnitsOf(attributes + [a]) == UnitsOf(attributes)[a := InferUnitsAndDescriptions(a).unit]
    ensures DescriptionsOf(attributes + [a]) == DescriptionsOf(attributes)[a := InferUnitsAndDescriptions(a).description]
  {
    assert forall b :: b in attributes + [a] <==> b in attributes || b == a;
  }

  function UnitsOf(attributes: seq<string>): map<string, string>
  {
    map a | a in attributes :: InferUnitsAndDescriptions(a).unit
  }

  function DescriptionsOf(attributes: seq<string>): map<string, string>
  {
    map a | a in attributes :: InferUnitsAndDescriptions(a).description
  }

  /** The descriptor of one table, or `None` when a gate skips it: no rows, no
      time column, no numeric column, or nothing left once the time column is
      taken out. */
  function Describe(t: Table, parse: Parser): Option<AttributeDescriptor>
  {
    if RowCount(t) == 0 then None
    else match GetTimeColumn(t.columns)
      case None => None
      case Some(timeCol) =>
        var numeric := NumericColumns(t, DefaultSampleSize, parse);
        if numeric == [] then None
        else
          var attributes := Without(numeric, timeCol);
          if attributes == [] then None
          else Some(AttributeDescriptor(timeCol, attributes, UnitsOf(attributes),
                                        DescriptionsOf(attributes), RowCount(t)))
  }

  /** The catalogue: one entry per table that passes every gate. */
  function DynamicAttributes(db: Db, parse: Parser): map<string, AttributeDescriptor>
  {
    map name | name in db && Describe(db[name], parse).Some? :: Describe(db[name], parse).value
  }

  /** The loop that fills `units` and `descriptions`. */
  method AnnotateAttributes(attributes: seq<string>) returns (units: map<string, string>, descriptions: map<string, string>)
    ensures units == UnitsOf(attributes) && descriptions == DescriptionsOf(attributes)
  {
    units, descriptions := map[], map[];
    for i := 0 to |attributes|
      invariant units == UnitsOf(attributes[..i])
      invariant descriptions == DescriptionsOf(attributes[..i])
    {
      var attr := attributes[i];
      var annotation := InferUnitsAndDescriptions(attr);
      units := units[attr := annotation.unit];
      descriptions := descriptions[attr := annotation.description];
      assert attributes[..i + 1] == attributes[..i] + [attr];
      UnitsOfSnoc(attributes[..i], attr);
    }
    assert attributes[..|attributes|] == attributes;
  }

  /** The catalogue entries of the tables in `visited`. */
  function CatalogOver(db: Db, parse: Parser, visited: set<string>): map<string, AttributeDescriptor>
  {
    Entries(DescribeIn(db, parse), visited)
  }

  /** The descriptor of a table of `db`, looked up by name. */
  function DescribeIn(db: Db, parse: Parser): string -> Option<AttributeDescriptor>
  {
    name => if name in db then Describe(db[name], parse) else None
  }

  /** The entries `describe` gives for `names`. */
  function Entries<V>(describe: string -> Option<V>, names: set<string>): map<string, V>
  {
    map name | name in names && describe(name).Some? :: describe(name).value
  }

  /** Visiting one more name adds its entry, if it has one. */
  lemma EntriesVisit<V>(describe: string -> Option<V>, names: set<string>, name: string)
    ensures Entries(describe, names + {name}) ==
      if describe(name).Some? then Entries(describe, names)[name := describe(name).value]
      else Entries(describe, names)
  {
  }

  /** Visiting one more table adds its entry, if it has one. */
  lemma CatalogOverVisit(db: Db, parse: Parser, visited: set<string>, name: string)
    requires name in db
    ensures CatalogOver(db, parse, visited + {name}) ==
      if Describe(db[name], parse).Some? then CatalogOver(db, parse, visited)[name := Describe(db[name], parse).value]
      else CatalogOver(db, parse, visited)
  {
    EntriesVisit(DescribeIn(db, parse), visited, name);
    assert DescribeIn(db, parse)(name) == Describe(db[name], parse);
  }

  /** `get_all_dynamic_attributes(conn)`: visits every table once. */
  method GetAllDynamicAttributes(db: Db, parse: Parser) returns (dynamicAttrs: map<string, AttributeDescriptor>)
    ensures dynamicAttrs == DynamicAttributes(db, parse)
  {
    dynamicAttrs := map[];
    var remaining := db.Keys;
    ghost var visited: set<string> := {};
    while remaining != {}
      invariant remaining <= db.Keys && visited + remaining == db.Keys
      invariant dynamicAttrs == CatalogOver(db, parse, visited)
      decreases remaining
    {
      var tableName :| tableName in remaining;
      CatalogOverVisit(db, parse, visited, tableName);
      remaining := remaining - {tableName};
      visited := visited + {tableName};
      var descriptor := DescribeTable(db[tableName], parse);
      if descriptor.Some? {
        dynamicAttrs := dynamicAttrs[tableName := descriptor.value];
      }
    }
    assert visited == db.Keys;
    CatalogComplete(db, parse);
  }

  /** The body of the loop for one table: each gate that fails skips it. */
  method DescribeTable(table: Table, parse: Parser) returns (descriptor: Option<AttributeDescriptor>)
    ensures descriptor == Describe(table, parse)
  {
    if RowCount(table) == 0 {
      return None;
    }
    var timeCol := GetTimeColumn(table.columns);
    if timeCol.None? {
      return None;
    }
    var numericCols := DetectNumericColumns(table, DefaultSampleSize, parse);
    if numericCols == [] {
      return None;
    }
    var attributes := Without(numericCols, timeCol.value);
    if attributes == [] {
      return None;
    }
    var units, descriptions := AnnotateAttributes(attributes);
    return Some(AttributeDescriptor(timeCol.value, attributes, units, descriptions, RowCount(table)));
  }

  /** Having visited every table, the entries are the catalogue. */
  lemma CatalogComplete(db: Db, parse: Parser)
    ensures CatalogOver(db, parse, db.Keys) == DynamicAttributes(db, parse)
  {
    var describe := DescribeIn(db, parse);
    assert forall name :: describe(name) == if name in db then Describe(db[name], parse) else None;
  }

  /** Every catalogue entry keeps the descriptor's invariants: its time column is
      the resolver's choice, its attributes are a non-empty, order-preserving
      selection of the numeric columns without the time column, every attribute
      is annotated and nothing else is, and the row count is the table's. */
  lemma DescriptorInvariants(db: Db, parse: Parser, name: string)
    requires name in DynamicAttributes(db, parse)
    ensures var d := DynamicAttributes(db, parse)[name];
      && name in db
      && GetTimeColumn(db[name].columns) == Some(d.timeCol)
      && |d.attributes| > 0
      && d.timeCol !in d.attributes
      && IsSubsequence(d.attributes, NumericColumns(db[name], DefaultSampleSize, parse))
      && d.units.Keys == d.descriptions.Keys == set a | a in d.attributes
      && (forall a :: a in d.attributes ==>
            d.units[a] == InferUnitsAndDescriptions(a).unit
            && d.descriptions[a] == InferUnitsAndDescriptions(a).description)
      && d.rowCount == RowCount(db[name]) > 0
  {
    var d := DynamicAttributes(db, parse)[name];
    var numeric := NumericColumns(db[name], DefaultSampleSize, parse);
    assert Describe(db[name], parse) == Some(d);
    var idx := WithoutSubsequence(numeric, d.timeCol);
  }

  /** A table is in the catalogue exactly when it has rows, a time column, and a
      numeric column other than the time column; the other tables are absent. */
  lemma CatalogMembership(db: Db, parse: Parser, name: string)
    requires name in db
    ensures name in DynamicAttributes(db, parse) <==>
      && RowCount(db[name]) > 0
      && GetTimeColumn(db[name].columns).Some?
      && exists a :: a in NumericColumns(db[name], DefaultSampleSize, parse)
                     && a != GetTimeColumn(db[name].columns).value
  {
    var t := db[name];
    if RowCount(t) > 0 && GetTimeColumn(t.columns).Some? {
      var tc := GetTimeColumn(t.columns).value;
      var numeric := NumericColumns(t, DefaultSampleSize, parse);
      var attributes := Without(numeric, tc);
      if attributes != [] {
        assert attributes[0] in numeric && attributes[0] != tc;
      }
    }
  }

  /** Every attribute is a column that passes the classifier on its own
      sample, and the time column is one of the table's columns. */
  lemma AttributesAreNumericColumns(db: Db, parse: Parser, name: string)
    requires name in DynamicAttributes(db, parse)
    ensures var d := DynamicAttributes(db, parse)[name];
      && d.timeCol in db[name].columns
      && forall a :: a in d.attributes ==>
           exists i :: 0 <= i < |db[name].columns| && db[name].columns[i] == a
                       && IsNumericColumn(SampledValues(db[name], i, DefaultSampleSize), parse)
  {
    var t := db[name];
    var d := DynamicAttributes(db, parse)[name];
    assert Describe(t, parse) == Some(d);
    CaseDistinctIsDistinct(t.columns);
    forall a | a in d.attributes
      ensures exists i :: 0 <= i < |t.columns| && t.columns[i] == a
                          && IsNumericColumn(SampledValues(t, i, DefaultSampleSize), parse)
    {
      NumericColumnsShape(t, DefaultSampleSize, parse);
      var i :| 0 <= i < |t.columns| && t.columns[i] == a
               && |SampledValues(t, i, DefaultSampleSize)| >= MinValues;
      NumericColumnsIff(t, DefaultSampleSize, parse, i);
    }
  }
}
