/** The aggregation panel's state: the GraphQL selection for one aggregation,
    the decoration of each aggregation before rendering, the edit of one
    aggregation's property, and the condition for reloading the list. */
module AggsState {
  import opened Js
  import opened Seqs

  const AggregationsType: string := "Aggregations"

  const QueryOpen: string := "\n\t\t\t"
  const BodyOpen: string := " {\n"
  const BucketsBody: string := BodyOpen + "\t\t\t\tbuckets {\n\t\t\t\t\tdoc_count\n\t\t\t\t\tkey_as_string\n\t\t\t\t\tkey\n\t\t\t\t}\n\t\t\t}\n\t\t"
  const StatsBody: string := BodyOpen + "\t\t\t\tstats {\n\t\t\t\t\tmax\n\t\t\t\t\tmin\n\t\t\t\t\tcount\n\t\t\t\t\tavg\n\t\t\t\t\tsum\n\t\t\t\t}\n\t\t\t}\n\t\t"

  /** A terms aggregation: its type is the string 'Aggregations'. */
  predicate IsTerms(typ: Value)
  {
    typ == Str(AggregationsType)
  }

  /** `queryFromAgg({fieldName, type})`: the field name after a new line and
      three tabs, then the bucket selection for a terms aggregation or the
      statistics selection otherwise. */
  function QueryFromAgg(fieldName: string, typ: Value): (r: string)
    ensures |r| == 4 + |fieldName| + |if IsTerms(typ) then BucketsBody else StatsBody|
    ensures r[..4] == QueryOpen && r[4..4 + |fieldName|] == fieldName
    ensures r[4 + |fieldName|..] == if IsTerms(typ) then BucketsBody else StatsBody
  {
    var body := if IsTerms(typ) then BucketsBody else StatsBody;
    QueryPieces(QueryOpen, fieldName, body);
    QueryOpen + fieldName + body
  }

  lemma QueryPieces(a: string, n: string, b: string)
    ensures (a + n + b)[..|a|] == a
    ensures (a + n + b)[|a|..|a| + |n|] == n
    ensures (a + n + b)[|a| + |n|..] == b
  {
    assert a + n + b == a + (n + b);
  }

  /** The query reveals the kind of aggregation: the two selections differ in
      length, so the query's length tells them apart. */
  lemma QueryRevealsKind(fieldName: string, typ: Value)
    ensures IsTerms(typ) <==> |QueryFromAgg(fieldName, typ)| == 4 + |fieldName| + |BucketsBody|
  {
    assert |BucketsBody| == 73 && |StatsBody| == 75;
  }

  /** ... and the two together are determined by the query: different field
      names or kinds never give the same query. */
  lemma QueryRevealsField(fieldName: string, other: string, typ: Value, otherTyp: Value)
    requires QueryFromAgg(fieldName, typ) == QueryFromAgg(other, otherTyp)
    ensures fieldName == other && IsTerms(typ) == IsTerms(otherTyp)
  {
    var q := QueryFromAgg(fieldName, typ);
    if IsTerms(typ) && !IsTerms(otherTyp) {
      KindsDiffer(fieldName, other, typ, otherTyp);
    } else if !IsTerms(typ) && IsTerms(otherTyp) {
      KindsDiffer(other, fieldName, otherTyp, typ);
    } else {
      assert |fieldName| == |other|;
      assert q[4..4 + |fieldName|] == fieldName;
    }
  }

  lemma BodyFacts()
    ensures |BucketsBody| == 73 && |StatsBody| == 75
    ensures BucketsBody[0] == ' ' && StatsBody[2] == '\n'
  {
    assert BodyOpen[0] == ' ' && BodyOpen[2] == '\n';
  }

  /** A terms query is never a statistics query, whatever the two names. */
  lemma KindsDiffer(terms: string, stats: string, typ: Value, otherTyp: Value)
    requires IsTerms(typ) && !IsTerms(otherTyp)
    ensures QueryFromAgg(terms, typ) != QueryFromAgg(stats, otherTyp)
  {
    var q := QueryFromAgg(terms, typ);
    var q' := QueryFromAgg(stats, otherTyp);
    BodyFacts();
    if |q| == |q'| {
      assert |terms| == |stats| + 2;
      var t := q[4 + |terms|..];
      var u := q'[4 + |stats|..];
      assert t[0] == ' ';
      assert u[2] == '\n';
      assert q'[4 + |terms|] == u[2];
      assert q[4 + |terms|] == t[0];
    }
  }

  /** The display-type table is a parameter: its values are read as they are. */
  type AggTypeMap = map<string, Value>

  /** `esToAggTypeMap[displayType]`; a key the table lacks reads `undefined`. */
  function AggType(typeMap: AggTypeMap, agg: Object): Value
  {
    Prop(typeMap, ToText(Prop(agg, "displayType")))
  }

  /** One aggregation as rendered: its properties, with `type` taken from the
      table, `query` recomputed from the field name and that type, and
      `isTerms` saying whether it is a terms aggregation. */
  function Decorate(typeMap: AggTypeMap, agg: Object): (r: Object)
    ensures forall k :: k in agg ==> k in r
    ensures forall k :: k in agg && k != "type" && k != "query" && k != "isTerms" ==> r[k] == agg[k]
    ensures "type" in r && r["type"] == AggType(typeMap, agg)
    ensures "query" in r && r["query"] == Str(QueryFromAgg(ToText(Prop(agg, "fieldName")), AggType(typeMap, agg)))
    ensures "isTerms" in r && r["isTerms"] == Bool(IsTerms(AggType(typeMap, agg)))
  {
    var typ := AggType(typeMap, agg);
    agg["type" := typ]["query" := Str(QueryFromAgg(ToText(Prop(agg, "fieldName")), typ))]["isTerms" := Bool(IsTerms(typ))]
  }

  /** Decorating a decorated aggregation changes nothing: the inputs of the
      decoration, `displayType` and `fieldName`, are not among its outputs. */
  lemma DecorateIdempotent(typeMap: AggTypeMap, agg: Object)
    ensures Decorate(typeMap, Decorate(typeMap, agg)) == Decorate(typeMap, agg)
  {
    var once := Decorate(typeMap, agg);
    assert Prop(once, "displayType") == Prop(agg, "displayType");
    assert Prop(once, "fieldName") == Prop(agg, "fieldName");
  }

  /** The list handed to `render`: every aggregation of `temp`, decorated. */
  function Rendered(typeMap: AggTypeMap, temp: seq<Object>): (r: seq<Object>)
    ensures |r| == |temp|
    ensures forall i :: 0 <= i < |r| ==> r[i] == Decorate(typeMap, temp[i])
  {
    seq(|temp|, i requires 0 <= i < |temp| => Decorate(typeMap, temp[i]))
  }

  /** Rendering the rendered list again gives the same list. */
  lemma RenderedIdempotent(typeMap: AggTypeMap, temp: seq<Object>)
    ensures Rendered(typeMap, Rendered(typeMap, temp)) == Rendered(typeMap, temp)
  {
    var r := Rendered(typeMap, temp);
    forall i | 0 <= i < |r|
      ensures Rendered(typeMap, r)[i] == r[i]
    {
      DecorateIdempotent(typeMap, temp[i]);
    }
  }

  /** The facets configuration as the panel reads it: its `aggregations` list
      may be missing. */
  datatype FacetsConfigs = FacetsConfigs(aggregations: Option<seq<Object>>)

  /** `facetsConfigs.aggregations || []`, or nothing when reading it throws. */
  function LoadedAggregations(facetsConfigs: Option<FacetsConfigs>): (r: Option<seq<Object>>)
    ensures facetsConfigs.None? <==> r.None?
    ensures facetsConfigs.Some? && facetsConfigs.value.aggregations.None? ==> r == Some([])
  {
    if facetsConfigs.None? then None
    else if facetsConfigs.value.aggregations.None? then Some([])
    else facetsConfigs.value.aggregations
  }

  /** `facetsConfigs?.aggregations?.length`. */
  function AggregationsCount(facetsConfigs: Option<FacetsConfigs>): Option<nat>
  {
    if facetsConfigs.Some? && facetsConfigs.value.aggregations.Some?
    then Some(|facetsConfigs.value.aggregations.value|) else None
  }

  /** The effect reloads unless the document type and the configuration are
      deep-equal to the previous ones and the configuration's count of
      aggregations is the number of aggregations held. */
  predicate ShouldRefetch(documentType: Value, prevDocumentType: Value, facetsConfigs: Option<FacetsConfigs>,
                          prevFacetsConfigs: Option<FacetsConfigs>, aggsLength: nat)
  {
    !(documentType == prevDocumentType && facetsConfigs == prevFacetsConfigs
      && AggregationsCount(facetsConfigs) == Some(aggsLength))
  }

  /** On the first render the previous props are the current ones and nothing
      is held: the list loads iff the configuration has aggregations, or has
      none to count. */
  lemma FirstRenderLoads(documentType: Value, facetsConfigs: Option<FacetsConfigs>)
    ensures ShouldRefetch(documentType, documentType, facetsConfigs, facetsConfigs, 0)
      <==> AggregationsCount(facetsConfigs) != Some(0)
  {
  }

  /** Once a configuration with a list is loaded, the same props cause no reload. */
  lemma LoadedIsStable(documentType: Value, facetsConfigs: Option<FacetsConfigs>)
    requires facetsConfigs.Some? && facetsConfigs.value.aggregations.Some?
    ensures !ShouldRefetch(documentType, documentType, facetsConfigs, facetsConfigs,
                           |LoadedAggregations(facetsConfigs).value|)
  {
  }

  /** Changed props always reload. */
  lemma ChangedPropsReload(documentType: Value, prevDocumentType: Value, facetsConfigs: Option<FacetsConfigs>,
                           prevFacetsConfigs: Option<FacetsConfigs>, aggsLength: nat)
    requires documentType != prevDocumentType || facetsConfigs != prevFacetsConfigs
    ensures ShouldRefetch(documentType, prevDocumentType, facetsConfigs, prevFacetsConfigs, aggsLength)
  {
  }

  /** `x.fieldName === fieldName`. */
  predicate HasFieldName(fieldName: string, x: Object)
  {
    Prop(x, "fieldName") == Str(fieldName)
  }

  /** `{...agg, [key]: value}`. */
  function SetKey(key: string, value: Value, x: Object): (r: Object)
    ensures key in r && r[key] == value
    ensures forall k :: k in x && k != key ==> k in r && r[k] == x[k]
    ensures forall k :: k in r ==> k in x || k == key
  {
    x[key := value]
  }

  /** The panel's state: `aggs` as loaded and `temp`, the copy that edits change. */
  class AggsStore {
    var aggs: seq<Object>
    var temp: seq<Object>

    constructor()
      ensures aggs == [] && temp == []
    {
      aggs := [];
      temp := [];
    }

    /** `fetchAggsState({facetsConfigs})`: both lists become the configured
        aggregations; when reading them throws, the error is caught and the
        state is kept. */
    method Load(facetsConfigs: Option<FacetsConfigs>)
      modifies this
      ensures LoadedAggregations(facetsConfigs).Some? ==>
        aggs == LoadedAggregations(facetsConfigs).value && temp == aggs
      ensures LoadedAggregations(facetsConfigs).None? ==> aggs == old(aggs) && temp == old(temp)
    {
      var loaded := LoadedAggregations(facetsConfigs);
      if loaded.Some? {
        aggs := loaded.value;
        temp := loaded.value;
      }
    }

    /** `update({fieldName, key, value})`: the first aggregation of `temp` with
        that field name gets `key` set to `value`; `aggs` is kept. */
    method Update(fieldName: string, key: string, value: Value)
      modifies this
      ensures aggs == old(aggs)
      ensures temp == ReplaceFirst(old(temp), x => HasFieldName(fieldName, x), x => SetKey(key, value, x))
    {
      var index := FindIndex(temp, x => HasFieldName(fieldName, x));
      if index >= 0 {
        temp := temp[index := SetKey(key, value, temp[index])];
      }
    }

    /** What `render` receives. */
    function View(typeMap: AggTypeMap): seq<Object>
      reads this
    {
      Rendered(typeMap, temp)
    }
  }

  /** An update changes the first matching aggregation and no other entry,
      neither one of another field nor a later one of the same field, and keeps
      the length. */
  lemma UpdateChangesOnlyTheMatch(temp: seq<Object>, fieldName: string, key: string, value: Value, j: nat)
    requires j < |temp|
    ensures var r := ReplaceFirst(temp, x => HasFieldName(fieldName, x), x => SetKey(key, value, x));
      var first := HasFieldName(fieldName, temp[j]) && (forall k :: 0 <= k < j ==> !HasFieldName(fieldName, temp[k]));
      |r| == |temp| && (first ==> r[j] == SetKey(key, value, temp[j])) && (!first ==> r[j] == temp[j])
  {
    var p := x => HasFieldName(fieldName, x);
    var i := FindIndex(temp, p);
    if HasFieldName(fieldName, temp[j]) && (forall k :: 0 <= k < j ==> !HasFieldName(fieldName, temp[k])) {
      assert p(temp[j]);
      assert i == j;
    }
  }

  /** An update for a field name that no aggregation has changes nothing. */
  lemma UpdateWithoutMatch(temp: seq<Object>, fieldName: string, key: string, value: Value)
    requires forall k :: 0 <= k < |temp| ==> !HasFieldName(fieldName, temp[k])
    ensures ReplaceFirst(temp, x => HasFieldName(fieldName, x), x => SetKey(key, value, x)) == temp
  {
    ReplaceFirstNoMatch(temp, x => HasFieldName(fieldName, x), x => SetKey(key, value, x));
  }

  /** Repeating an update of a key other than `fieldName` changes nothing more. */
  lemma UpdateTwice(temp: seq<Object>, fieldName: string, key: string, value: Value)
    requires key != "fieldName"
    ensures var p := x => HasFieldName(fieldName, x);
      var f := x => SetKey(key, value, x);
      ReplaceFirst(ReplaceFirst(temp, p, f), p, f) == ReplaceFirst(temp, p, f)
  {
    var p := x => HasFieldName(fieldName, x);
    var f := x => SetKey(key, value, x);
    forall x | p(x)
      ensures p(f(x)) && f(f(x)) == f(x)
    {
      assert Prop(f(x), "fieldName") == Prop(x, "fieldName");
    }
    ReplaceFirstTwice(temp, p, f);
  }
}
