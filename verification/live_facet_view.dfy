/** The data side of the live advanced facet view: the aggregation query it
    sends for the extended mapping, the re-keying of the response from GraphQL
    names back to dotted paths, the pruning of excluded field types from the
    mapping tree, and the choice of entries whose aggregations are fetched. */
module LiveFacetView {
  import opened Js
  import opened Text
  import opened Seqs
  import opened FieldNames
  import opened Mapping

  /** One entry of the extended mapping: a dotted field path and its type,
      which may be missing. */
  datatype ExtendedField = ExtendedField(fieldName: string, typ: Option<string>)

  /** One aggregation of the facets configuration: a GraphQL field name and its
      `isActive` flag, read for its truthiness. */
  datatype FacetAggregation = FacetAggregation(fieldName: string, isActive: Value)

  /** The facets configuration; its `aggregations` list may be missing. */
  datatype FacetsConfig = FacetsConfig(aggregations: Option<seq<FacetAggregation>>)

  /** The display-type table is a parameter: only whether an entry reads
      'Aggregations' matters. */
  type AggTypeMap = map<string, string>

  const AggregationsType: string := "Aggregations"

  /** `esToAggTypeMap[aggType] === 'Aggregations'`; a missing type is looked up
      under the key `undefined`. */
  predicate IsTermsType(typeMap: AggTypeMap, typ: Option<string>)
  {
    var key := if typ.Some? then typ.value else "undefined";
    key in typeMap && typeMap[key] == AggregationsType
  }

  // ---------------------------------------------------------------------------
  // The aggregation query

  const BucketsSelection: string := "buckets { key key_as_string doc_count }"
  const StatsSelection: string := "stats { max min avg sum }"

  /** The selection of one block: bucket keys and counts for a terms
      aggregation, numeric statistics otherwise. */
  function Selection(terms: bool): string
  {
    if terms then BucketsSelection else StatsSelection
  }

  const BlockOpen: string := "\n          "
  const BlockMiddle: string := " {\n            "
  const BlockClose: string := "\n          }"

  /** The text of the block for `aggName`: a new line, ten spaces, the name and
      an opening brace; a new line, twelve spaces and the selection; a new
      line, ten spaces and the closing brace. */
  function AggBlock(aggName: string, terms: bool): (r: string)
    ensures |r| == |aggName| + |Selection(terms)| + 38
    ensures r[11..11 + |aggName|] == aggName
    ensures r[|aggName| + 26..|r| - 12] == Selection(terms)
  {
    BlockPieces(BlockOpen, aggName, BlockMiddle, Selection(terms), BlockClose);
    BlockOpen + aggName + BlockMiddle + Selection(terms) + BlockClose
  }

  lemma BlockPieces(a: string, n: string, b: string, sel: string, c: string)
    ensures var r := a + n + b + sel + c;
      |r| == |a| + |n| + |b| + |sel| + |c| &&
      r[|a|..|a| + |n|] == n &&
      r[|a| + |n| + |b|..|r| - |c|] == sel
  {
    var r := a + n + b + sel + c;
    assert r == a + (n + (b + sel + c));
    MiddleSlice(a, n, b + sel + c);
    assert r == (a + n + b) + (sel + c);
    MiddleSlice(a + n + b, sel, c);
  }

  /** `extended.find((entry) => serializeToGraphQl(entry.fieldName) === aggName)`. */
  function EntryNamed(extended: seq<ExtendedField>, aggName: string): Option<ExtendedField>
  {
    Find(extended, (e: ExtendedField) => ToGraphQl(e.fieldName) == aggName)
  }

  /** The block for the `i`-th entry: named by its GraphQL name, with the type of
      the first entry of that name. */
  function BlockOf(extended: seq<ExtendedField>, typeMap: AggTypeMap, i: nat): string
    requires i < |extended|
  {
    var aggName := ToGraphQl(extended[i].fieldName);
    var found := EntryNamed(extended, aggName);
    AggBlock(aggName, found.Some? && IsTermsType(typeMap, found.value.typ))
  }

  /** The blocks, one per extended entry and in the same order. */
  function Blocks(extended: seq<ExtendedField>, typeMap: AggTypeMap): (r: seq<string>)
    ensures |r| == |extended|
  {
    seq(|extended|, i requires 0 <= i < |extended| => BlockOf(extended, typeMap, i))
  }

  /** `getAggregationQuery()`: the blocks joined with nothing between them. */
  function AggregationQuery(extended: seq<ExtendedField>, typeMap: AggTypeMap): string
  {
    Join(Blocks(extended, typeMap), "")
  }

  /** The lookup by GraphQL name always finds an entry (the entry itself, at
      the latest), so reading its `type` never fails. */
  lemma EntryNamedFound(extended: seq<ExtendedField>, i: nat)
    requires i < |extended|
    ensures EntryNamed(extended, ToGraphQl(extended[i].fieldName)).Some?
  {
    var p := (e: ExtendedField) => ToGraphQl(e.fieldName) == ToGraphQl(extended[i].fieldName);
    assert p(extended[i]);
  }

  /** When no earlier entry has the same GraphQL name, the block of entry `i`
      uses that entry's own type. */
  lemma BlockUsesOwnType(extended: seq<ExtendedField>, typeMap: AggTypeMap, i: nat)
    requires i < |extended|
    requires forall k :: 0 <= k < i ==> ToGraphQl(extended[k].fieldName) != ToGraphQl(extended[i].fieldName)
    ensures BlockOf(extended, typeMap, i)
      == AggBlock(ToGraphQl(extended[i].fieldName), IsTermsType(typeMap, extended[i].typ))
  {
    var aggName := ToGraphQl(extended[i].fieldName);
    var p := (e: ExtendedField) => ToGraphQl(e.fieldName) == aggName;
    assert p(extended[i]);
    var k := FindIndex(extended, p);
    assert k == i;
  }

  /** Two entries with the same GraphQL name (`a.b` and `a__b`, say) get
      blocks of the same kind: the first one's type decides both. */
  lemma SameNameSameBlock(extended: seq<ExtendedField>, typeMap: AggTypeMap, i: nat, j: nat)
    requires i < |extended| && j < |extended|
    requires ToGraphQl(extended[i].fieldName) == ToGraphQl(extended[j].fieldName)
    ensures BlockOf(extended, typeMap, i) == BlockOf(extended, typeMap, j)
  {
  }

  /** Joining with nothing is plain concatenation. */
  function Concat(xs: seq<string>): string
  {
    if xs == [] then "" else xs[0] + Concat(xs[1..])
  }

  lemma {:induction false} JoinNoSepIsConcat(xs: seq<string>)
    ensures Join(xs, "") == Concat(xs)
  {
    if |xs| == 1 {
      assert xs[1..] == [];
    } else if |xs| > 1 {
      JoinNoSepIsConcat(xs[1..]);
    }
  }

  lemma {:induction false} ConcatAppend(a: seq<string>, b: seq<string>)
    ensures Concat(a + b) == Concat(a) + Concat(b)
  {
    if a == [] {
      assert a + b == b;
    } else {
      var t := a[1..];
      assert (a + b)[0] == a[0];
      assert (a + b)[1..] == t + b;
      ConcatAppend(t, b);
      Assoc(a[0], Concat(t), Concat(b));
    }
  }

  lemma ConcatSingle(x: string)
    ensures Concat([x]) == x
  {
    assert [x][1..] == [];
  }

  lemma JoinNoSepLayout(xs: seq<string>, i: nat)
    requires i < |xs|
    ensures Join(xs, "") == Join(xs[..i], "") + xs[i] + Join(xs[i + 1..], "")
  {
    SplitAt(xs, i);
    ConcatAppend(xs[..i], [xs[i]] + xs[i + 1..]);
    ConcatAppend([xs[i]], xs[i + 1..]);
    ConcatSingle(xs[i]);
    JoinNoSepIsConcat(xs);
    JoinNoSepIsConcat(xs[..i]);
    JoinNoSepIsConcat(xs[i + 1..]);
  }

  /** Joining with nothing: the `i`-th piece can be read off at the length of
      the pieces before it. */
  lemma JoinNoSepSlice(xs: seq<string>, i: nat)
    requires i < |xs|
    ensures |Join(xs[..i], "")| + |xs[i]| <= |Join(xs, "")|
    ensures Join(xs, "")[|Join(xs[..i], "")|..|Join(xs[..i], "")| + |xs[i]|] == xs[i]
  {
    JoinNoSepLayout(xs, i);
    var before := Join(xs[..i], "");
    var after := Join(xs[i + 1..], "");
    assert before + xs[i] + after == before + (xs[i] + after);
    MiddleSlice(before, xs[i], after);
  }

  /** The query holds the block of entry `i` right after the blocks of the
      entries before it. */
  lemma QueryLayout(extended: seq<ExtendedField>, typeMap: AggTypeMap, i: nat)
    requires i < |extended|
    ensures var bs := Blocks(extended, typeMap);
      var offset := |Join(bs[..i], "")|;
      offset + |bs[i]| <= |AggregationQuery(extended, typeMap)| &&
      AggregationQuery(extended, typeMap)[offset..offset + |bs[i]|] == bs[i] == BlockOf(extended, typeMap, i)
  {
    JoinNoSepSlice(Blocks(extended, typeMap), i);
  }

  // ---------------------------------------------------------------------------
  // Re-keying the response

  /** `Object.keys(aggregations || {}).reduce(...)` over the response entries in
      key order: each value is stored under the dotted path of its key, a later
      entry overwriting an earlier one of the same path. */
  function Rekey(aggregations: Option<seq<(string, Value)>>): (r: map<string, Value>)
    ensures aggregations.None? ==> r == map[]
  {
    if aggregations.None? then map[] else RekeyEntries(aggregations.value)
  }

  function RekeyEntries(entries: seq<(string, Value)>): map<string, Value>
  {
    if entries == [] then map[]
    else
      var last := entries[|entries| - 1];
      RekeyEntries(entries[..|entries| - 1])[ToPath(last.0) := last.1]
  }

  /** The keys of the result are exactly the dotted paths of the response keys. */
  lemma {:induction false} RekeyKeys(entries: seq<(string, Value)>, k: string)
    ensures k in RekeyEntries(entries) <==> exists i :: 0 <= i < |entries| && ToPath(entries[i].0) == k
  {
    if entries != [] {
      var init := entries[..|entries| - 1];
      RekeyKeys(init, k);
      if exists i :: 0 <= i < |init| && ToPath(init[i].0) == k {
        var i :| 0 <= i < |init| && ToPath(init[i].0) == k;
        assert entries[i] == init[i];
      }
      if exists i :: 0 <= i < |entries| && ToPath(entries[i].0) == k {
        var i :| 0 <= i < |entries| && ToPath(entries[i].0) == k;
        if i < |init| {
          assert init[i] == entries[i];
        }
      }
    }
  }

  /** An entry whose path no later entry shares keeps its value unchanged. */
  lemma {:induction false} RekeyValue(entries: seq<(string, Value)>, i: nat)
    requires i < |entries|
    requires forall j :: i < j < |entries| ==> ToPath(entries[j].0) != ToPath(entries[i].0)
    ensures ToPath(entries[i].0) in RekeyEntries(entries)
    ensures RekeyEntries(entries)[ToPath(entries[i].0)] == entries[i].1
  {
    if i < |entries| - 1 {
      var init := entries[..|entries| - 1];
      assert init[i] == entries[i];
      forall j | i < j < |init|
        ensures ToPath(init[j].0) != ToPath(init[i].0)
      {
        assert init[j] == entries[j];
      }
      RekeyValue(init, i);
    }
  }

  /** A response key that is the GraphQL name of an underscore-free path lands
      back under that path. */
  lemma RekeyRestoresPath(entries: seq<(string, Value)>, i: nat, path: string)
    requires i < |entries| && '_' !in path && entries[i].0 == ToGraphQl(path)
    requires forall j :: i < j < |entries| ==> ToPath(entries[j].0) != path
    ensures path in Rekey(Some(entries)) && Rekey(Some(entries))[path] == entries[i].1
  {
    RoundTrip(path);
    RekeyValue(entries, i);
  }

  // ---------------------------------------------------------------------------
  // Removing excluded field types from the mapping

  /** The `type` of the first extended entry at `path` is one of `exclude`. An
      entry with no type, or no entry at all, excludes nothing. */
  predicate Excluded(extended: seq<ExtendedField>, path: string, exclude: seq<string>)
  {
    var found := Find(extended, (ex: ExtendedField) => ex.fieldName == path);
    found.Some? && found.value.typ.Some? && found.value.typ.value in exclude
  }

  /** `removeFieldTypesFromMapping({mapping, extended, parentField, fieldTypesToExclude})`
      over the entries of `mapping`: excluded keys are dropped with their
      subtree, and kept ones are pruned. */
  function RemoveFieldTypes(fs: seq<Field>, extended: seq<ExtendedField>, parent: string,
                            exclude: seq<string>): (r: seq<Field>)
    ensures |r| <= |fs|
    decreases fs
  {
    if fs == [] then []
    else
      var rest := RemoveFieldTypes(fs[1..], extended, parent, exclude);
      if Excluded(extended, FullPath(parent, fs[0].key), exclude) then rest
      else [Prune(fs[0], extended, parent, exclude)] + rest
  }

  /** A kept entry: one with `properties` keeps its other attributes and has its
      `properties` pruned under its own path; a leaf is copied unchanged. */
  function Prune(f: Field, extended: seq<ExtendedField>, parent: string, exclude: seq<string>): (r: Field)
    ensures r.key == f.key && r.node.typ == f.node.typ && r.node.hasProperties == f.node.hasProperties
    decreases f
  {
    if f.node.hasProperties then
      Field(f.key, f.node.(properties := RemoveFieldTypes(f.node.properties, extended, FullPath(parent, f.key), exclude)))
    else f
  }

  /** No entry of the forest, at any depth the walk reaches, is excluded. */
  predicate Clean(fs: seq<Field>, extended: seq<ExtendedField>, parent: string, exclude: seq<string>)
    decreases fs
  {
    fs != [] ==> CleanField(fs[0], extended, parent, exclude) && Clean(fs[1..], extended, parent, exclude)
  }

  predicate CleanField(f: Field, extended: seq<ExtendedField>, parent: string, exclude: seq<string>)
    decreases f
  {
    !Excluded(extended, FullPath(parent, f.key), exclude) &&
    (f.node.hasProperties ==> Clean(f.node.properties, extended, FullPath(parent, f.key), exclude))
  }

  /** The pruned mapping holds no excluded entry at any depth. */
  lemma {:induction false} RemoveIsClean(fs: seq<Field>, extended: seq<ExtendedField>, parent: string,
                                         exclude: seq<string>)
    ensures Clean(RemoveFieldTypes(fs, extended, parent, exclude), extended, parent, exclude)
    decreases fs, 1
  {
    if fs != [] {
      var r := RemoveFieldTypes(fs, extended, parent, exclude);
      var rest := RemoveFieldTypes(fs[1..], extended, parent, exclude);
      RemoveIsClean(fs[1..], extended, parent, exclude);
      if !Excluded(extended, FullPath(parent, fs[0].key), exclude) {
        PruneIsClean(fs[0], extended, parent, exclude);
        assert r[1..] == rest;
      }
    }
  }

  lemma {:induction false} PruneIsClean(f: Field, extended: seq<ExtendedField>, parent: string,
                                        exclude: seq<string>)
    requires !Excluded(extended, FullPath(parent, f.key), exclude)
    ensures CleanField(Prune(f, extended, parent, exclude), extended, parent, exclude)
    decreases f, 0
  {
    if f.node.hasProperties {
      RemoveIsClean(f.node.properties, extended, FullPath(parent, f.key), exclude);
    }
  }

  /** A mapping with nothing to exclude comes back as it was. */
  lemma {:induction false} CleanIsFixed(fs: seq<Field>, extended: seq<ExtendedField>, parent: string,
                                        exclude: seq<string>)
    requires Clean(fs, extended, parent, exclude)
    ensures RemoveFieldTypes(fs, extended, parent, exclude) == fs
    decreases fs, 1
  {
    if fs != [] {
      CleanIsFixed(fs[1..], extended, parent, exclude);
      CleanFieldIsFixed(fs[0], extended, parent, exclude);
      assert [fs[0]] + fs[1..] == fs;
    }
  }

  lemma {:induction false} CleanFieldIsFixed(f: Field, extended: seq<ExtendedField>, parent: string,
                                             exclude: seq<string>)
    requires CleanField(f, extended, parent, exclude)
    ensures Prune(f, extended, parent, exclude) == f
    decreases f, 0
  {
    if f.node.hasProperties {
      CleanIsFixed(f.node.properties, extended, FullPath(parent, f.key), exclude);
    }
  }

  /** Pruning twice prunes nothing more. */
  lemma RemoveIdempotent(fs: seq<Field>, extended: seq<ExtendedField>, parent: string, exclude: seq<string>)
    ensures var once := RemoveFieldTypes(fs, extended, parent, exclude);
      RemoveFieldTypes(once, extended, parent, exclude) == once
  {
    RemoveIsClean(fs, extended, parent, exclude);
    CleanIsFixed(RemoveFieldTypes(fs, extended, parent, exclude), extended, parent, exclude);
  }

  /** With an empty exclude list every forest is clean. */
  lemma {:induction false} NothingExcludedIsClean(fs: seq<Field>, extended: seq<ExtendedField>, parent: string)
    ensures Clean(fs, extended, parent, [])
    decreases fs, 1
  {
    if fs != [] {
      NothingExcludedFieldIsClean(fs[0], extended, parent);
      NothingExcludedIsClean(fs[1..], extended, parent);
    }
  }

  lemma {:induction false} NothingExcludedFieldIsClean(f: Field, extended: seq<ExtendedField>, parent: string)
    ensures CleanField(f, extended, parent, [])
    decreases f, 0
  {
    if f.node.hasProperties {
      NothingExcludedIsClean(f.node.properties, extended, FullPath(parent, f.key));
    }
  }

  /** An empty exclude list leaves the mapping unchanged. */
  lemma RemoveNothing(fs: seq<Field>, extended: seq<ExtendedField>, parent: string)
    ensures RemoveFieldTypes(fs, extended, parent, []) == fs
  {
    NothingExcludedIsClean(fs, extended, parent);
    CleanIsFixed(fs, extended, parent, []);
  }

  /** The top-level entries of the result are exactly the pruned copies of the
      entries that are not excluded. */
  lemma {:induction false} RemoveMembers(fs: seq<Field>, extended: seq<ExtendedField>, parent: string,
                                         exclude: seq<string>, x: Field)
    ensures x in RemoveFieldTypes(fs, extended, parent, exclude) <==>
      (exists i :: 0 <= i < |fs| && !Excluded(extended, FullPath(parent, fs[i].key), exclude) && x == Prune(fs[i], extended, parent, exclude))
  {
    if fs != [] {
      RemoveMembers(fs[1..], extended, parent, exclude, x);
      if (exists i :: 0 <= i < |fs| && !Excluded(extended, FullPath(parent, fs[i].key), exclude) && x == Prune(fs[i], extended, parent, exclude)) {
        var i :| 0 <= i < |fs| && !Excluded(extended, FullPath(parent, fs[i].key), exclude) && x == Prune(fs[i], extended, parent, exclude);
        if i > 0 {
          assert fs[1..][i - 1] == fs[i];
        }
      }
      if (exists i :: 0 <= i < |fs[1..]| && !Excluded(extended, FullPath(parent, fs[1..][i].key), exclude) && x == Prune(fs[1..][i], extended, parent, exclude)) {
        var i :| 0 <= i < |fs[1..]| && !Excluded(extended, FullPath(parent, fs[1..][i].key), exclude) && x == Prune(fs[1..][i], extended, parent, exclude);
        assert fs[i + 1] == fs[1..][i];
      }
    }
  }

  /** The keys of a list of mapping entries, in order. */
  function KeysOf(fs: seq<Field>): (r: seq<string>)
    ensures |r| == |fs|
    ensures forall i :: 0 <= i < |fs| ==> r[i] == fs[i].key
  {
    if fs == [] then [] else [fs[0].key] + KeysOf(fs[1..])
  }

  /** Removal keeps the mapping's key order: the kept keys appear in the
      result in the order they had in the mapping. */
  lemma {:induction false} RemoveKeepsKeyOrder(fs: seq<Field>, extended: seq<ExtendedField>, parent: string,
                                               exclude: seq<string>)
    ensures IsSubsequence(KeysOf(RemoveFieldTypes(fs, extended, parent, exclude)), KeysOf(fs))
    decreases |fs|
  {
    if fs != [] {
      var rest := RemoveFieldTypes(fs[1..], extended, parent, exclude);
      RemoveKeepsKeyOrder(fs[1..], extended, parent, exclude);
      assert KeysOf(fs) == [fs[0].key] + KeysOf(fs[1..]);
      if Excluded(extended, FullPath(parent, fs[0].key), exclude) {
        SubsequenceSkip(KeysOf(rest), fs[0].key, KeysOf(fs[1..]));
      } else {
        var r := [Prune(fs[0], extended, parent, exclude)] + rest;
        assert r[1..] == rest;
        assert KeysOf(r) == [fs[0].key] + KeysOf(rest);
        assert KeysOf(r)[1..] == KeysOf(rest);
      }
    }
  }

  /** An entry that no extended entry describes is never excluded. */
  lemma UndescribedIsKept(extended: seq<ExtendedField>, path: string, exclude: seq<string>)
    requires forall k :: 0 <= k < |extended| ==> extended[k].fieldName != path
    ensures !Excluded(extended, path, exclude)
  {
    var p := (ex: ExtendedField) => ex.fieldName == path;
    assert forall k :: 0 <= k < |extended| ==> !p(extended[k]);
  }

  // ---------------------------------------------------------------------------
  // Choosing the entries whose aggregations are fetched

  /** `defaultFieldTypesToExclude`. */
  const DefaultExcluded: seq<string> := ["id", "text"]

  /** `denyListedAggTypes`: object and nested types, then the excluded ones. */
  function DenyListed(exclude: seq<string>): (r: seq<string>)
    ensures "object" in r && "nested" in r
    ensures forall t :: t in exclude ==> t in r
  {
    ["object", "nested"] + exclude
  }

  /** The first facet aggregation whose field name, with `__` turned back into
      dots, is `fieldName`, has a truthy `isActive`. */
  predicate ActiveFacet(facets: Option<FacetsConfig>, fieldName: string)
  {
    facets.Some? && facets.value.aggregations.Some? &&
    var found := Find(facets.value.aggregations.value, (s: FacetAggregation) => ToPath(s.fieldName) == fieldName);
    found.Some? && Truthy(found.value.isActive)
  }

  predicate Fetched(e: ExtendedField, facets: Option<FacetsConfig>, exclude: seq<string>)
  {
    !(e.typ.Some? && e.typ.value in DenyListed(exclude)) && ActiveFacet(facets, e.fieldName)
  }

  /** `filterExtendedForFetchingAggs({extended, facets})`: a missing list stays
      missing; otherwise an entry stays iff its type is not deny-listed and an
      active facet aggregation names it. */
  function FilterExtendedForFetchingAggs(extended: Option<seq<ExtendedField>>, facets: Option<FacetsConfig>,
                                         exclude: seq<string>): (r: Option<seq<ExtendedField>>)
    ensures r.Some? <==> extended.Some?
    ensures r.Some? ==> forall e :: e in r.value <==> e in extended.value && Fetched(e, facets, exclude)
    ensures r.Some? ==> IsSubsequence(r.value, extended.value)
  {
    if extended.None? then None
    else
      var kept := Filter(extended.value, (e: ExtendedField) => Fetched(e, facets, exclude));
      FilterIsSubsequence(extended.value, (e: ExtendedField) => Fetched(e, facets, exclude));
      assert forall e :: e in extended.value && Fetched(e, facets, exclude) ==> e in kept by {
        forall e | e in extended.value && Fetched(e, facets, exclude)
          ensures e in kept
        {
          var i :| 0 <= i < |extended.value| && extended.value[i] == e;
        }
      }
      Some(kept)
  }

  /** A facet aggregation named by the GraphQL name of an underscore-free
      path, active and the first to name that path, selects the path. */
  lemma ActiveByGraphQlName(aggs: seq<FacetAggregation>, j: nat, path: string)
    requires j < |aggs| && '_' !in path
    requires aggs[j].fieldName == ToGraphQl(path) && Truthy(aggs[j].isActive)
    requires forall k :: 0 <= k < j ==> ToPath(aggs[k].fieldName) != path
    ensures ActiveFacet(Some(FacetsConfig(Some(aggs))), path)
  {
    RoundTrip(path);
    var p := (s: FacetAggregation) => ToPath(s.fieldName) == path;
    assert p(aggs[j]);
    var k := FindIndex(aggs, p);
    assert k == j;
  }

  /** The extended mapping passed down to the view: entries whose type is not
      excluded. */
  function VisibleExtended(extended: seq<ExtendedField>, exclude: seq<string>): (r: seq<ExtendedField>)
    ensures forall e :: e in r <==> e in extended && !(e.typ.Some? && e.typ.value in exclude)
    ensures IsSubsequence(r, extended)
  {
    var kept := Filter(extended, (e: ExtendedField) => !(e.typ.Some? && e.typ.value in exclude));
    FilterIsSubsequence(extended, (e: ExtendedField) => !(e.typ.Some? && e.typ.value in exclude));
    assert forall e :: e in extended && !(e.typ.Some? && e.typ.value in exclude) ==> e in kept by {
      forall e | e in extended && !(e.typ.Some? && e.typ.value in exclude)
        ensures e in kept
      {
        var i :| 0 <= i < |extended| && extended[i] == e;
      }
    }
    kept
  }

  /** Every entry whose aggregation is fetched is also shown. */
  lemma FetchedAreVisible(extended: seq<ExtendedField>, facets: Option<FacetsConfig>, exclude: seq<string>,
                          e: ExtendedField)
    requires e in FilterExtendedForFetchingAggs(Some(extended), facets, exclude).value
    ensures e in VisibleExtended(extended, exclude)
  {
  }
}
