/** The quick search: when the search text is worth sending, how a search
    field is decorated from the table's column state, when a result value
    matches a part of the search text, and the `or` filter sent with the
    query. */
module QuickSearch {
  import opened Js
  import opened Text
  import opened Seqs
  import opened FieldNames

  // ---------------------------------------------------------------------------
  // The search text

  /** `value?.trim()?.length > 1`. */
  predicate IsValidValue(value: Option<string>)
  {
    value.Some? && |Trim(value.value)| > 1
  }

  /** Two non-space characters in `s`, at distinct positions. */
  predicate HasTwoNonSpace(s: string)
  {
    exists i, j :: 0 <= i < j < |s| && !IsSpace(s[i]) && !IsSpace(s[j])
  }

  /** A valid search text holds two non-space characters ... */
  lemma ValidHasTwoNonSpace(s: string)
    requires IsValidValue(Some(s))
    ensures HasTwoNonSpace(s)
  {
    var i0 := |s| - |TrimStart(s)|;
    var t := Trim(s);
    TrimInside(s);
    TrimIsTrimmed(s);
    assert s[i0] == t[0];
    assert s[i0 + |t| - 1] == t[|t| - 1];
  }

  /** ... and any text that holds two is valid. */
  lemma TwoNonSpaceIsValid(s: string, i: nat, j: nat)
    requires i < j < |s| && !IsSpace(s[i]) && !IsSpace(s[j])
    ensures IsValidValue(Some(s))
  {
    var i0 := |s| - |TrimStart(s)|;
    var n := |Trim(s)|;
    TrimStartRemovesSpace(s);
    TrimEndsInSpace(s);
    forall k | 0 <= k < i0
      ensures IsSpace(s[k])
    {
      assert s[..i0][k] == s[k];
    }
    forall k | i0 + n <= k < |s|
      ensures IsSpace(s[k])
    {
      assert s[i0 + n..][k - i0 - n] == s[k];
    }
  }

  /** A fetch happens only for a valid search text and at least one search field. */
  predicate ShouldFetch(searchText: Option<string>, searchFields: seq<Value>)
  {
    IsValidValue(searchText) && |searchFields| > 0
  }

  /** Whitespace alone, or a single character amid whitespace, never fetches. */
  lemma BlankTextNeverFetches(s: string, searchFields: seq<Value>)
    requires forall i, j :: 0 <= i < j < |s| ==> IsSpace(s[i]) || IsSpace(s[j])
    ensures !ShouldFetch(Some(s), searchFields)
  {
    if IsValidValue(Some(s)) {
      ValidHasTwoNonSpace(s);
    }
  }

  // ---------------------------------------------------------------------------
  // Decorating a search field

  /** The table configuration as the decoration reads it: `columns` may be
      missing, and `rowIdFieldName` is any value. */
  datatype TableConfigs = TableConfigs(columns: Option<seq<Object>>, rowIdFieldName: Value)

  /** `tableConfigs?.columns?.find((column) => column.fieldName === target)`. */
  function ColumnWith(tableConfigs: Option<TableConfigs>, target: Value): (r: Option<Object>)
    ensures r.Some? ==> Prop(r.value, "fieldName") == target
  {
    if tableConfigs.None? || tableConfigs.value.columns.None? then None
    else Find(tableConfigs.value.columns.value, (c: Object) => Prop(c, "fieldName") == target)
  }

  /** The column state: the column of the field, else the row-id column,
      else `{}`. */
  function ColumnsStateField(tableConfigs: Option<TableConfigs>, fieldName: string): (r: Object)
    ensures ColumnWith(tableConfigs, Str(fieldName)).Some? ==> r == ColumnWith(tableConfigs, Str(fieldName)).value
    ensures ColumnWith(tableConfigs, Str(fieldName)).None? && tableConfigs.Some?
      && ColumnWith(tableConfigs, tableConfigs.value.rowIdFieldName).Some?
      ==> r == ColumnWith(tableConfigs, tableConfigs.value.rowIdFieldName).value
    ensures ColumnWith(tableConfigs, Str(fieldName)).None?
      && (tableConfigs.None? || ColumnWith(tableConfigs, tableConfigs.value.rowIdFieldName).None?)
      ==> r == map[]
  {
    var own := ColumnWith(tableConfigs, Str(fieldName));
    if own.Some? then own.value
    else if tableConfigs.None? then map[]
    else
      var byRowId := ColumnWith(tableConfigs, tableConfigs.value.rowIdFieldName);
      if byRowId.Some? then byRowId.value else map[]
  }

  /** The last element of a non-empty list. */
  function Last(xs: seq<string>): string
    requires xs != []
  {
    xs[|xs| - 1]
  }

  /** `$..` and a single-segment name, or `$..` and the last segment, which a
      one-element array renders as. */
  function JsonPath(fieldName: string): string
  {
    var segs := SplitOn(fieldName, Dot);
    "$.." + (if |segs| == 1 then fieldName else Last(segs))
  }

  /** `decorateFieldWithColumnsState({tableConfigs, fieldName})`: `null` for a
      missing or empty field name; otherwise the column state with the GraphQL
      name, the JSON path and the query added, the query falling back to the
      field name. */
  function DecorateFieldWithColumnsState(tableConfigs: Option<TableConfigs>, fieldName: Option<string>): (r: Option<Object>)
    ensures r.None? <==> fieldName.None? || fieldName.value == ""
    ensures r.Some? ==> "gqlField" in r.value && r.value["gqlField"] == Str(ToGraphQl(fieldName.value))
    ensures r.Some? ==> "jsonPath" in r.value && r.value["jsonPath"] == Str(JsonPath(fieldName.value))
    ensures r.Some? ==> (
      var col := ColumnsStateField(tableConfigs, fieldName.value);
      "query" in r.value
      && r.value["query"] == (if Truthy(Prop(col, "query")) then col["query"] else Str(fieldName.value)))
    ensures r.Some? ==> (
      var col := ColumnsStateField(tableConfigs, fieldName.value);
      forall k :: k in col && k != "gqlField" && k != "jsonPath" && k != "query" ==> k in r.value && r.value[k] == col[k])
  {
    if fieldName.None? || fieldName.value == "" then None
    else
      var name := fieldName.value;
      var col := ColumnsStateField(tableConfigs, name);
      var query := if Truthy(Prop(col, "query")) then col["query"] else Str(name);
      Some(col["gqlField" := Str(ToGraphQl(name))]["jsonPath" := Str(JsonPath(name))]["query" := query])
  }

  /** The JSON path is `$..` and the last segment of the field name, in both
      branches. */
  lemma JsonPathIsLastSegment(fieldName: string)
    ensures JsonPath(fieldName) == "$.." + Last(SplitOn(fieldName, Dot))
  {
    var segs := SplitOn(fieldName, Dot);
    if |segs| == 1 {
      JoinSplit(fieldName, Dot);
    }
  }

  /** The JSON path's last part holds no dot, whatever the field name. */
  lemma JsonPathSegmentHasNoDot(fieldName: string)
    ensures '.' !in Last(SplitOn(fieldName, Dot))
  {
    assert Dot == ['.'];
    SplitPiecesAvoidSeparator(fieldName, '.');
  }

  // ---------------------------------------------------------------------------
  // Matching a result value

  /** `isMatching({value, searchText, exact})`. */
  predicate IsMatching(value: string, searchText: string, exact: bool)
  {
    if exact then value == searchText else Contains(Lower(value), Lower(searchText))
  }

  /** Lower-casing twice is lower-casing once. */
  lemma LowerIdempotent(s: string)
    ensures Lower(Lower(s)) == Lower(s)
  {
    assert forall i :: 0 <= i < |s| ==> LowerChar(LowerChar(s[i])) == LowerChar(s[i]);
  }

  /** An exact match is also a match when not exact. */
  lemma ExactImpliesLoose(value: string, searchText: string)
    requires IsMatching(value, searchText, true)
    ensures IsMatching(value, searchText, false)
  {
    var l := Lower(value);
    assert l[..|l|] == l;
  }

  /** The loose match ignores the case of the search text. */
  lemma LooseIgnoresCase(value: string, searchText: string)
    ensures IsMatching(value, Lower(searchText), false) == IsMatching(value, searchText, false)
  {
    LowerIdempotent(searchText);
  }

  /** A loose match on a value that embeds the search text. */
  lemma LooseFindsInfix(a: string, searchText: string, b: string)
    ensures IsMatching(a + searchText + b, searchText, false)
  {
    var v := a + searchText + b;
    assert Lower(v) == Lower(a) + Lower(searchText) + Lower(b);
    ContainsInfix(Lower(a), Lower(searchText), Lower(b));
  }

  // ---------------------------------------------------------------------------
  // The filter

  /** One clause of the `or`: an `in` clause on one field with all the parts, or
      a `filter` clause over all the field names with one wildcard value. */
  datatype Clause =
    | InClause(fieldName: Value, values: seq<string>)
    | FilterClause(fieldNames: seq<Value>, value: string)

  datatype Sqon = Or(content: seq<Clause>)

  /** The search text parts, lower-cased when asked to. The split itself (by
      the configured delimiters) is not part of this model: the parts are given. */
  function SearchTextParts(parts: seq<string>, searchLowercase: bool): (r: seq<string>)
    ensures |r| == |parts|
    ensures forall i :: 0 <= i < |r| ==> r[i] == if searchLowercase then Lower(parts[i]) else parts[i]
  {
    seq(|parts|, i requires 0 <= i < |parts| => if searchLowercase then Lower(parts[i]) else parts[i])
  }

  /** Lower-casing the parts once more changes nothing. */
  lemma SearchTextPartsIdempotent(parts: seq<string>, searchLowercase: bool)
    ensures SearchTextParts(SearchTextParts(parts, searchLowercase), searchLowercase)
            == SearchTextParts(parts, searchLowercase)
  {
    var r := SearchTextParts(parts, searchLowercase);
    forall i | 0 <= i < |r|
      ensures SearchTextParts(r, searchLowercase)[i] == r[i]
    {
      if searchLowercase {
        LowerIdempotent(parts[i]);
      }
    }
  }

  /** A part matches a value loosely exactly when the part as typed does:
      `searchLowercase` only matters to exact matching. */
  lemma SearchTextPartsMatchLoosely(parts: seq<string>, searchLowercase: bool, value: string, i: nat)
    requires i < |parts|
    ensures IsMatching(value, SearchTextParts(parts, searchLowercase)[i], false)
            <==> IsMatching(value, parts[i], false)
  {
    if searchLowercase {
      LowerIdempotent(parts[i]);
    }
  }

  /** `({fieldName}) => fieldName`: destructuring throws on `null` and
      `undefined`; other values without the key give `undefined`. */
  function FieldNameOf(field: Value): Result<Value>
  {
    Get(field, "fieldName")
  }

  /** `field.fieldName || field`. */
  function FieldNameOrField(field: Value): Result<Value>
  {
    match Get(field, "fieldName")
    case Err(e) => Err(e)
    case Ok(v) => if Truthy(v) then Ok(v) else Ok(field)
  }

  predicate NoNullish(fields: seq<Value>)
  {
    forall i :: 0 <= i < |fields| ==> !Nullish(fields[i])
  }

  /** The `*part*` wildcard of a filter clause. */
  function Wildcard(part: string): (r: string)
    ensures |r| == |part| + 2 && r[0] == '*' && r[|r| - 1] == '*' && r[1..|r| - 1] == part
  {
    "*" + part + "*"
  }

  /** The `sqon` memo: an `or` of one `in` clause per search field when exact,
      of one `filter` clause per part otherwise. A `null` or `undefined`
      search field makes reading its `fieldName` throw. */
  function BuildSqon(exact: bool, searchFields: seq<Value>, parts: seq<string>): (r: Result<Sqon>)
    ensures exact && NoNullish(searchFields) ==> (
      r.Ok? && |r.value.content| == |searchFields|
      && forall i :: 0 <= i < |searchFields| ==> r.value.content[i] == InClause(FieldNameOf(searchFields[i]).value, parts))
    ensures !exact && (parts == [] || NoNullish(searchFields)) ==> (
      r.Ok? && |r.value.content| == |parts|
      && forall i :: 0 <= i < |parts| ==> (r.value.content[i].FilterClause?
           && r.value.content[i].value == Wildcard(parts[i])
           && |r.value.content[i].fieldNames| == |searchFields|))
    ensures !exact && NoNullish(searchFields) ==> (
      forall i, k :: 0 <= i < |parts| && 0 <= k < |searchFields| ==>
        r.value.content[i].fieldNames[k] == FieldNameOrField(searchFields[k]).value)
    ensures !NoNullish(searchFields) && (exact || parts != []) ==> r.Err?
  {
    if !NoNullish(searchFields) && (exact || parts != []) then
      Err(TypeError("Cannot read properties of null"))
    else if exact then
      Ok(Or(seq(|searchFields|, i requires 0 <= i < |searchFields| => InClause(FieldNameOf(searchFields[i]).value, parts))))
    else
      var names := seq(|searchFields|, i requires 0 <= i < |searchFields| =>
        if Nullish(searchFields[i]) then Undefined else FieldNameOrField(searchFields[i]).value);
      Ok(Or(seq(|parts|, i requires 0 <= i < |parts| => FilterClause(names, Wildcard(parts[i])))))
  }

  /** A field given as a plain string names itself in a non-exact filter, and
      names no field (`undefined`) in an exact one. */
  lemma StringFieldNames(field: string, part: string)
    ensures BuildSqon(false, [Str(field)], [part]).value.content[0].fieldNames == [Str(field)]
    ensures BuildSqon(true, [Str(field)], [part]).value.content[0] == InClause(Undefined, [part])
  {
    assert NoNullish([Str(field)]);
  }
}
