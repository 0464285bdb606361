/** The statistics widget: the GraphQL query it sends for a root total or one
    aggregation, the aggregation it reads the value from, and the path of that
    value in the response. */
module Stats {
  import opened Js
  import opened Text
  import opened Seqs
  import opened FieldNames
  import AggsState

  // ---------------------------------------------------------------------------
  // The query

  const AggregationsResolver: string := "aggregations"
  const IncludeMissing: string := "include_missing: false"
  const FilterThemselves: string := "aggregations_filter_themselves: true"
  const ArgIndent: string := "\n\t\t\t\t"
  const QueryClose: string := "\n\t\t\t}\n\t\t}\n\t}\n"

  /** `resolver = 'aggregations'`: the default applies only when no resolver
      is passed. */
  function ResolverOf(resolver: Option<string>): string
  {
    if resolver.Some? then resolver.value else AggregationsResolver
  }

  /** The two argument lines after `filters`: the aggregation settings for the
      `aggregations` resolver, blank lines for any other. */
  function Settings(resolver: string): string
  {
    var agg := resolver == AggregationsResolver;
    (if agg then IncludeMissing else "") + ArgIndent + (if agg then FilterThemselves else "")
  }

  /** The text before the settings. */
  function QueryHead(documentType: string, resolver: string): string
  {
    "\n\tquery($sqon: JSON) {\n\t\tdata: " + documentType + " {\n\t\t\t" + resolver
      + " (\n\t\t\t\tfilters: $sqon" + ArgIndent
  }

  /** The text after the settings. */
  function QueryTail(query: string): string
  {
    "\n\t\t\t) {\n\t\t\t\t" + query + QueryClose
  }

  /** `constructQuery({documentType, query, resolver})`: the selection sits just
      before the closing braces, and the settings just after the `filters`
      line. */
  function ConstructQuery(documentType: string, query: string, resolver: Option<string>): (r: string)
    ensures var head := QueryHead(documentType, ResolverOf(resolver));
      var settings := Settings(ResolverOf(resolver));
      |head| + |settings| <= |r| && r[|head|..|head| + |settings|] == settings
    ensures |query| + 13 <= |r| && r[|r| - 13 - |query|..|r| - 13] == query
  {
    var head := QueryHead(documentType, ResolverOf(resolver));
    var settings := Settings(ResolverOf(resolver));
    var open := "\n\t\t\t) {\n\t\t\t\t";
    assert |QueryClose| == 13;
    MiddleSlice(head, settings, QueryTail(query));
    QueryPieces(head + settings + open, query, QueryClose);
    assert head + settings + QueryTail(query) == head + settings + open + query + QueryClose;
    head + settings + QueryTail(query)
  }

  lemma QueryPieces(a: string, q: string, c: string)
    ensures (a + q + c)[|a + q + c| - |c| - |q|..|a + q + c| - |c|] == q
  {
    assert a + q + c == a + (q + c);
    MiddleSlice(a, q, c);
  }

  lemma SettingsFacts()
    ensures IncludeMissing[0] == 'i'
    ensures forall i :: 0 <= i < |ArgIndent| ==> IsSpace(ArgIndent[i])
  {
  }

  /** The settings lines are blank exactly when the resolver is not
      `aggregations`. */
  lemma SettingsBlankIff(resolver: string)
    ensures AllSpace(Settings(resolver)) <==> resolver != AggregationsResolver
  {
    SettingsFacts();
    if resolver == AggregationsResolver {
      assert Settings(resolver)[0] == IncludeMissing[0];
    } else {
      assert Settings(resolver) == ArgIndent;
    }
  }

  /** The `aggregations` resolver, the default, asks for both settings. */
  lemma DefaultResolverSettings()
    ensures Settings(ResolverOf(None)) == IncludeMissing + ArgIndent + FilterThemselves
  {
  }

  /** The root total uses the `hits` resolver and so carries no settings. */
  lemma RootQueryHasNoSettings(documentType: string)
    ensures AllSpace(Settings(ResolverOf(Some("hits"))))
  {
    SettingsBlankIff("hits");
  }

  // ---------------------------------------------------------------------------
  // The aggregation and the accessor

  /** `aggs.find((x) => x.fieldName === underscoreField(fieldName))`. */
  function AggsField(aggs: seq<Object>, fieldName: Option<string>): (r: Option<Object>)
    ensures r.Some? ==> Prop(r.value, "fieldName") == Str(UnderscoreField(fieldName)) && r.value in aggs
    ensures r.None? <==> forall j :: 0 <= j < |aggs| ==> Prop(aggs[j], "fieldName") != Str(UnderscoreField(fieldName))
  {
    Find(aggs, (x: Object) => Prop(x, "fieldName") == Str(UnderscoreField(fieldName)))
  }

  /** `underscoreField(str)` on a value: `str || ''` must be a string, since
      `split` is called on it. */
  function UnderscoreValue(v: Value): (r: Result<string>)
    ensures !Truthy(v) ==> r == Ok("")
    ensures v.Str? ==> r == Ok(UnderscoreField(Some(v.s)))
    ensures Truthy(v) && !v.Str? ==> r.Err?
  {
    if !Truthy(v) then Ok("")
    else if v.Str? then Ok(UnderscoreField(Some(v.s)))
    else Err(TypeError("split is not a function"))
  }

  const BucketsLength: string := "buckets.length"
  const StatsCount: string := "stats.count"

  /** The part after the field: `dataAccessor`, else the bucket count of a
      terms aggregation, else the statistics count. */
  function AccessorTail(aggsField: Option<Object>, dataAccessor: Option<string>): (r: string)
    ensures dataAccessor.Some? && dataAccessor.value != "" ==> r == dataAccessor.value
    ensures ((dataAccessor.None? || dataAccessor.value == "") && aggsField.Some?
             && Truthy(Prop(aggsField.value, "isTerms"))) ==> r == BucketsLength
    ensures ((dataAccessor.None? || dataAccessor.value == "")
             && (aggsField.None? || !Truthy(Prop(aggsField.value, "isTerms")))) ==> r == StatsCount
  {
    var isTerms := aggsField.Some? && Truthy(Prop(aggsField.value, "isTerms"));
    OrElse(dataAccessor, if isTerms then BucketsLength else StatsCount)
  }

  /** `accessor({aggsField, dataAccessor})`: the underscored field name, a dot
      and the tail. */
  function Accessor(aggsField: Option<Object>, dataAccessor: Option<string>): (r: Result<string>)
    ensures aggsField.None? ==> r == Ok("." + AccessorTail(aggsField, dataAccessor))
    ensures aggsField.Some? && Prop(aggsField.value, "fieldName").Str? ==>
      r == Ok(ToGraphQl(Prop(aggsField.value, "fieldName").s) + "." + AccessorTail(aggsField, dataAccessor))
    ensures aggsField.Some? && Truthy(Prop(aggsField.value, "fieldName")) && !Prop(aggsField.value, "fieldName").Str?
      ==> r.Err?
  {
    var fieldName := if aggsField.Some? then Prop(aggsField.value, "fieldName") else Undefined;
    assert "" + "." == ".";
    match UnderscoreValue(fieldName)
    case Err(e) => Err(e)
    case Ok(name) => Ok(name + "." + AccessorTail(aggsField, dataAccessor))
  }

  /** Split at its dots, the accessor is the field's GraphQL name followed by
      the pieces of the tail: the name itself holds no dot. */
  lemma AccessorSplits(agg: Object, dataAccessor: Option<string>, s: string)
    requires Prop(agg, "fieldName") == Str(s)
    ensures Accessor(Some(agg), dataAccessor).Ok?
    ensures SplitOn(Accessor(Some(agg), dataAccessor).value, Dot)
      == [ToGraphQl(s)] + SplitOn(AccessorTail(Some(agg), dataAccessor), Dot)
  {
    ToGraphQlHasNoDot(s);
    if s == "" {
      assert ToGraphQl(s) == "" by {
        assert SplitOn(s, Dot) == [""];
      }
    }
    SplitAfterPiece(ToGraphQl(s), Dot, AccessorTail(Some(agg), dataAccessor));
  }

  /** Looking up a field name with no dot in the list the panel renders finds
      the decoration of the first aggregation of that name. */
  lemma FindsDecorated(typeMap: AggsState.AggTypeMap, temp: seq<Object>, i: nat, name: string)
    requires i < |temp| && Prop(temp[i], "fieldName") == Str(name) && '.' !in name
    requires forall j :: 0 <= j < i ==> Prop(temp[j], "fieldName") != Str(name)
    ensures AggsField(AggsState.Rendered(typeMap, temp), Some(name)) == Some(AggsState.Decorate(typeMap, temp[i]))
  {
    var aggs := AggsState.Rendered(typeMap, temp);
    NoDotUnchanged(name);
    var p := (x: Object) => Prop(x, "fieldName") == Str(UnderscoreField(Some(name)));
    forall j | 0 <= j < i
      ensures !p(aggs[j])
    {
      DecorateKeepsFieldName(typeMap, temp[j]);
    }
    DecorateKeepsFieldName(typeMap, temp[i]);
    assert p(aggs[i]);
    var k := FindIndex(aggs, p);
    assert k == i;
  }

  lemma DecorateKeepsFieldName(typeMap: AggsState.AggTypeMap, agg: Object)
    ensures Prop(AggsState.Decorate(typeMap, agg), "fieldName") == Prop(agg, "fieldName")
  {
  }

  /** With no `dataAccessor`, a decorated aggregation is read at its bucket
      count exactly when the table calls it a terms aggregation, and at its
      statistics count otherwise. */
  lemma AccessorOfDecorated(typeMap: AggsState.AggTypeMap, agg: Object, name: string)
    requires Prop(agg, "fieldName") == Str(name)
    ensures Accessor(Some(AggsState.Decorate(typeMap, agg)), None) == Ok(ToGraphQl(name) + "." +
      (if AggsState.IsTerms(AggsState.AggType(typeMap, agg)) then BucketsLength else StatsCount))
  {
    var d := AggsState.Decorate(typeMap, agg);
    DecorateKeepsFieldName(typeMap, agg);
    assert Prop(d, "isTerms") == Bool(AggsState.IsTerms(AggsState.AggType(typeMap, agg)));
  }

  /** A name with no dot is its own GraphQL name. */
  lemma NoDotUnchanged(name: string)
    requires '.' !in name
    ensures ToGraphQl(name) == name
  {
    SplitSinglePiece(name, Dot);
  }
}
