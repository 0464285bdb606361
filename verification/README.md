# Arranger core logic in Dafny

Arranger builds search portals over Elasticsearch: a GraphQL server that reads index
mappings, and React components (facets, quick search, statistics, the match box) that
turn configuration into GraphQL queries and filter trees. This project models the parts of
that code that are plain, deterministic logic over strings, lists and nested objects.
The same parts are then proved to keep the promises their code makes.

- **Schema text composition.** `Schema` holds the `SchemaBuilder` class, with its seven
  category lists, the schema slot, the keyword detection of `addMultiple` and the fixed
  render order of `build`. `SchemaUtils` holds the SDL helpers: `#graphql` cleaning,
  `combineTypeDefs`, `createEnum`, `createUnion`, `gql`, `validateTypeDef`, the
  `extractTypeNames` regular-expression loop (as a hand-written scanner) and
  `deduplicateTypeDefs`.
- **Mapping-tree walks.** `Mapping` covers `flattenMapping` and `getNestedFields`.
  `LiveFacetView` covers `removeFieldTypesFromMapping`. `AdvancedFacetView` covers
  `fieldMappingFromPath` and `constructFilterId`.
- **Field names and aggregation queries.** `FieldNames` holds the `.` ↔ `__` conversions.
  `LiveFacetView` also holds the aggregation query of the live facet view, the re-keying
  of its response and the filter choosing which aggregations to fetch. `AggsState` holds
  `queryFromAgg`, the per-aggregation decoration, the refetch condition and `update`.
  `Stats` holds `underscoreField`, `accessor`, `constructQuery` and the `aggsField` lookup.
- **Sequence operations.** `ReplaceBy` models `replaceBy`. `Aggregations` covers the
  custom-item insertion of `AggregationsListDisplay` and the per-aggregation prop merge.
  `FacetView` covers the leaf flattening, ancestor paths, breadcrumbs and keyword-grid
  class names. `MatchBoxState` covers the match box's active fields, primary key, `update`
  and state changes.
- **Quick search.** `QuickSearch` covers the validity and matching predicates,
  `decorateFieldWithColumnsState`, the `or` filter tree and the fetch guard.

Shared modules:
- Js holds JavaScript values with truthiness, property reads that throw on
  `null`/`undefined`, and spread.
- Seqs holds `find`/`findIndex`/`filter`, subsequences, a throwing `map` and the
  replace-first-match update.
- Text holds ECMAScript whitespace, `trim`, `includes`, `split`/`join`, ASCII lower
  case and decimal rendering.

Objects whose key order matters (mapping trees) are ordered lists of entries. Other
records are maps from key to value. A JavaScript exception is the `Err` case of a
`Result`.

The React state holders (`SchemaBuilder`, `AggsState`'s store, `MatchBoxState`'s store)
are classes whose fields the methods reassign. The function handed to `render` is modelled
by what it reads. `AggsState.AggsStore.View` gives the decorated aggregations. The match
box's `matchBoxState` render argument is the store's `temp` field (MatchBoxState.ts:199).
Its `activeFields` argument is `MatchBoxState.ActiveFields` of `temp`.

## Model

| member | source | states |
|---|---|---|
| SchemaUtils.CleanTypeDef | modules/schema-builder/src/SchemaBuilder.ts:130-134 | the cleaned text never starts or ends with whitespace |
| SchemaUtils.CleanTypeDefCases | modules/schema-builder/src/SchemaBuilder.ts:130-134 | a leading `#graphql` goes together with the whitespace after it and the rest is trimmed; text without the marker is only trimmed |
| SchemaUtils.CleanMarkedText | modules/schema-builder/src/SchemaBuilder.ts:131-133 | marker, then whitespace, then text cleans to the trimmed text |
| SchemaUtils.MarkerOnlyAtStart | modules/schema-builder/src/SchemaBuilder.ts:132 | a marker after leading whitespace is kept; only the surrounding whitespace goes |
| SchemaUtils.CleanRemovesOneMarker | modules/schema-builder/src/SchemaBuilder.ts:132 | cleaning is not idempotent: a doubly marked text loses one marker per cleaning |
| SchemaUtils.CleanedSections | modules/schema-builder/src/utils.ts:9-11 | the kept sections are trimmed and no more numerous than the arguments |
| SchemaUtils.CombineTypeDefs | modules/schema-builder/src/utils.ts:8-13 | no kept section gives ""; a single kept section is returned as it is |
| SchemaUtils.CombineTypeDefsSplits | modules/schema-builder/src/utils.ts:8-13 | splitting the result on blank lines gives back the cleaned sections, in order |
| SchemaUtils.CombineKeepsMarkerOnlySection | modules/schema-builder/src/utils.ts:10-11 | an argument of only the marker and whitespace passes the emptiness test and leaves an empty section: two separators between its neighbours |
| SchemaUtils.CombineExample | modules/schema-builder/src/utils.ts:8-13 | a marked first argument loses its marker and an empty argument disappears |
| SchemaUtils.EnumDecl | modules/schema-builder/src/utils.ts:20-22 | the declaration runs from `enum` to `}`, contains `enum Name` and every value |
| SchemaUtils.CreateEnum | modules/schema-builder/src/utils.ts:18-24 | the output begins with the marker and contains the declaration |
| SchemaUtils.CleanCreateEnum | modules/schema-builder/src/utils.ts:18-24 | cleaning the output gives exactly the declaration |
| SchemaUtils.UnionDecl | modules/schema-builder/src/utils.ts:31 | the declaration starts with `union Name = ` |
| SchemaUtils.CreateUnion | modules/schema-builder/src/utils.ts:29-33 | the output begins with the marker and contains the union declaration |
| SchemaUtils.UnionMembers | modules/schema-builder/src/utils.ts:31 | after `union Name = ` the declaration splits on the bar separator into exactly the given types, in order, when no type holds a space |
| SchemaUtils.CleanCreateUnion | modules/schema-builder/src/utils.ts:29-33 | cleaning the output gives the declaration without trailing whitespace |
| SchemaUtils.GqlWithoutValues | modules/schema-builder/src/utils.ts:39-41 | falsy or missing values contribute "": the parts are concatenated |
| SchemaUtils.CleanGql | modules/schema-builder/src/utils.ts:38-44 | cleaning removes exactly the marker `gql` adds and trims the rest |
| SchemaUtils.ContainsAny | modules/schema-builder/src/utils.ts:54 | true iff some keyword occurs in the text |
| SchemaUtils.ValidateTypeDef | modules/schema-builder/src/utils.ts:49-55 | true iff the cleaned text contains one of the eight keywords |
| SchemaUtils.ValidateRejectsBlank | modules/schema-builder/src/utils.ts:49-55 | blank text, marked or not, including "", is rejected |
| SchemaUtils.ValidateAcceptsType | modules/schema-builder/src/utils.ts:49-55 | trimmed text starting with `type` is accepted |
| SchemaUtils.RunEnd | modules/schema-builder/src/utils.ts:62 | the greedy run: every character before the end matches, the one at the end does not |
| SchemaUtils.MatchWith | modules/schema-builder/src/utils.ts:62 | a match through ordered alternatives ends after the position and captures a maximal non-empty word |
| SchemaUtils.MatchWithSpec | modules/schema-builder/src/utils.ts:62 | a match exists iff some alternative opens the text, is followed by at least one whitespace character and then a word character; the captured name is the text from that word character to the match end |
| SchemaUtils.MatchAt | modules/schema-builder/src/utils.ts:62 | a match of the expression at a position ends after it and captures a maximal non-empty word |
| SchemaUtils.MatchAtSpec | modules/schema-builder/src/utils.ts:62 | a match at a position exists iff one of `type`, `input`, `enum`, `interface`, `union`, `scalar` opens the text there followed by whitespace and a word; the name is that word |
| SchemaUtils.MatchOfDeclStart | modules/schema-builder/src/utils.ts:62 | a keyword, whitespace and a word character at a position give exactly the maximal word there as the name |
| SchemaUtils.ExecWith | modules/schema-builder/src/utils.ts:62-66 | the search from `lastIndex` through any ordered list of alternatives: a match found ends after `lastIndex` and captures a word |
| SchemaUtils.ExecWithIsLeftmost | modules/schema-builder/src/utils.ts:62-66 | for any list of alternatives, the search returns the match at the first position from `lastIndex` on where one matches |
| SchemaUtils.ExecWithNoneIff | modules/schema-builder/src/utils.ts:66 | for any list of alternatives, the search finds nothing iff no position from `lastIndex` on starts a match |
| SchemaUtils.ExecWithSkips | modules/schema-builder/src/utils.ts:62-66 | a stretch where no alternative matches is skipped: the search from its start equals the search from its end |
| SchemaUtils.MatchWithFinds | modules/schema-builder/src/utils.ts:62 | when the keyword at a position differs from every other alternative in its first or third letter, the match there is that keyword's declaration, whatever the order of the alternatives |
| SchemaUtils.Exec | modules/schema-builder/src/utils.ts:62-66 | a match found from `lastIndex` ends after it and captures a word |
| SchemaUtils.ExecIsLeftmost | modules/schema-builder/src/utils.ts:62-66 | `exec` returns the match at the first position from `lastIndex` on where the expression matches |
| SchemaUtils.ExecNoneIff | modules/schema-builder/src/utils.ts:66 | `exec` returns `null` iff no position from `lastIndex` on starts a match |
| SchemaUtils.ExecAtMatch | modules/schema-builder/src/utils.ts:62-66 | a match at `lastIndex` is exactly what `exec` returns |
| SchemaUtils.ExecSkipsFrom | modules/schema-builder/src/utils.ts:62-66 | `exec` from the start of a stretch that starts no match returns what it returns from the stretch's end |
| SchemaUtils.ExecSkipsQuiet | modules/schema-builder/src/utils.ts:66-68 | text that contains no keyword head (`typ`, `inp`, `int`, `enu`, `uni`, `sca`) and ends in a non-word character starts no match, so the search and the names skip it |
| SchemaUtils.NoMatchInQuiet | modules/schema-builder/src/utils.ts:62 | no position inside such text starts a match of the expression |
| SchemaUtils.NamesFrom | modules/schema-builder/src/utils.ts:66-68 | every captured name is a non-empty word |
| SchemaUtils.NamesFromMatch | modules/schema-builder/src/utils.ts:66-68 | a match found by `exec` contributes its name, and the search resumes where the match ends |
| SchemaUtils.NamesAcrossMatch | modules/schema-builder/src/utils.ts:66-68 | a match followed by text without a keyword head contributes its name, and the search resumes after that text |
| SchemaUtils.ExecAtDeclaration | modules/schema-builder/src/utils.ts:62-66 | a keyword, whitespace and a word followed by a non-word character make `exec` return that word, ending right after it |
| SchemaUtils.ExtractTypeNames | modules/schema-builder/src/utils.ts:60-71 | the loop returns exactly the names of the repeated `exec` calls on the unmarked text |
| SchemaUtils.NamesOfDeclarations | modules/schema-builder/src/utils.ts:66-68 | after any prefix, a run of well-formed declarations yields their names, in order |
| SchemaUtils.TypeNamesInOrder | modules/schema-builder/src/utils.ts:60-71 | leading whitespace and well-formed declarations of any of the six keywords yield the declared names in order of appearance; a declaration body may hold any text without a keyword head, such as `{ title: String }` |
| SchemaUtils.TypeNamesOfDeclaration | modules/schema-builder/src/utils.ts:60-71 | one well-formed declaration on its own yields exactly its name |
| SchemaUtils.TypeNamesExample | modules/schema-builder/src/__tests__/utils.test.ts:75-89 | the declarations `type User`, `enum Status`, `interface Node` yield `User`, `Status`, `Node` |
| SchemaUtils.TypeNamesSingle | modules/schema-builder/src/utils.ts:60-71 | `type`, whitespace and a word yield that one name |
| SchemaUtils.DeduplicateTypeDefs | modules/schema-builder/src/utils.ts:76-91 | the loop returns `Deduplicated` of its input, a subsequence of it; `DeduplicatedStep` says exactly which definitions that keeps |
| SchemaUtils.DedupIsSubsequence | modules/schema-builder/src/utils.ts:80-88 | the result is a subsequence of the input: order kept, nothing added |
| SchemaUtils.DedupKeepsOnlyNewNames | modules/schema-builder/src/utils.ts:82-86 | each kept definition declares a name no earlier kept one declares, so one without names is never kept |
| SchemaUtils.DedupCoversAllNames | modules/schema-builder/src/utils.ts:80-88 | every declared name is declared by some kept definition |
| SchemaUtils.DeduplicatedSpec | modules/schema-builder/src/utils.ts:76-91 | all three from an empty set: order-preserving, only new names, the same names in total |
| SchemaUtils.DeduplicatedStep | modules/schema-builder/src/utils.ts:80-88 | definition `i` is kept, after the result for the first `i`, if and only if it declares a name that result does not declare: both directions |
| SchemaUtils.DedupSnoc | modules/schema-builder/src/utils.ts:80-88 | from any `seen` set, one more definition is appended to the result iff it has a name outside `seen` and the names kept so far |
| SchemaUtils.DedupRepeatedName | modules/schema-builder/src/utils.ts:80-88 | of three definitions naming `x`, `y`, `x`, the third is dropped and the first two kept |
| SchemaUtils.DeduplicateExample | modules/schema-builder/src/__tests__/utils.test.ts:93-103 | `type User { id: ID! }`, `type Post { title: String }`, `type User { id: ID! name: String }` give the first two |
| Schema.FirstMatchSpec | modules/schema-builder/src/SchemaBuilder.ts:85-101 | the category is that of the first rule whose marker occurs, and is types iff none occurs |
| Schema.ClassifySpec | modules/schema-builder/src/SchemaBuilder.ts:85-101 | the same for the seven `addMultiple` markers in their order |
| Schema.EnumBeforeInput | modules/schema-builder/src/SchemaBuilder.ts:85-88 | a fragment holding `enum ` and no `scalar ` goes to enums as a whole, whatever inputs it also declares |
| Schema.FileEffect | modules/schema-builder/src/SchemaBuilder.ts:81-104 | filing appends to the chosen list only; a schema definition replaces the stored one |
| Schema.CleanAll | modules/schema-builder/src/SchemaBuilder.ts:83 | every fragment cleaned, same length, all trimmed |
| Schema.OfCategory | modules/schema-builder/src/SchemaBuilder.ts:82-102 | the fragments detected as a category form a subsequence of the input |
| Schema.FileAllList | modules/schema-builder/src/SchemaBuilder.ts:82-102 | `addMultiple` appends to each list exactly its detected fragments, in input order |
| Schema.FileAllSchema | modules/schema-builder/src/SchemaBuilder.ts:97-98 | after `addMultiple` the schema slot holds the last detected schema definition, or the old one |
| Schema.CategoriesPartition | modules/schema-builder/src/SchemaBuilder.ts:82-102 | every fragment lands in exactly one category |
| Schema.FileAllTrimmed | modules/schema-builder/src/SchemaBuilder.ts:82-102 | only cleaned fragments are ever stored |
| Schema.NonEmpty | modules/schema-builder/src/SchemaBuilder.ts:124 | `filter(Boolean)` leaves only non-empty strings |
| Schema.Render | modules/schema-builder/src/SchemaBuilder.ts:109-125 | the text is "" iff every section is empty, and contains every section |
| Schema.RenderSplits | modules/schema-builder/src/SchemaBuilder.ts:109-125 | split on blank lines, the text gives back the non-empty sections in render order |
| Schema.OrderOfSections | modules/schema-builder/src/SchemaBuilder.ts:110-118 | adds of type, interface, enum and scalar render as scalar, enum, interface, type |
| Schema.FileCommutes | modules/schema-builder/src/SchemaBuilder.ts:17-68 | adds to different lists commute |
| Schema.SchemaBuilder.constructor | modules/schema-builder/src/SchemaBuilder.ts:4-12 | a fresh builder has every list empty and no schema |
| Schema.SchemaBuilder.Create | modules/schema-builder/src/SchemaBuilder.ts:154-156 | a fresh, empty builder |
| Schema.SchemaBuilder.AddScalar | modules/schema-builder/src/SchemaBuilder.ts:17-20 | appends the cleaned fragment to scalars only and returns the builder |
| Schema.SchemaBuilder.AddEnum | modules/schema-builder/src/SchemaBuilder.ts:25-28 | appends the cleaned fragment to enums only and returns the builder |
| Schema.SchemaBuilder.AddInterface | modules/schema-builder/src/SchemaBuilder.ts:33-36 | appends the cleaned fragment to interfaces only and returns the builder |
| Schema.SchemaBuilder.AddType | modules/schema-builder/src/SchemaBuilder.ts:41-44 | appends the cleaned fragment to types only and returns the builder |
| Schema.SchemaBuilder.AddInput | modules/schema-builder/src/SchemaBuilder.ts:49-52 | appends the cleaned fragment to inputs only and returns the builder |
| Schema.SchemaBuilder.AddUnion | modules/schema-builder/src/SchemaBuilder.ts:57-60 | appends the cleaned fragment to unions only and returns the builder |
| Schema.SchemaBuilder.AddDirective | modules/schema-builder/src/SchemaBuilder.ts:65-68 | appends the cleaned fragment to directives only and returns the builder |
| Schema.SchemaBuilder.SetSchema | modules/schema-builder/src/SchemaBuilder.ts:73-76 | overwrites the schema slot with the cleaned fragment, lists unchanged |
| Schema.SchemaBuilder.AddMultiple | modules/schema-builder/src/SchemaBuilder.ts:81-104 | the new state is every fragment cleaned, detected and filed in turn |
| Schema.SchemaBuilder.Build | modules/schema-builder/src/SchemaBuilder.ts:109-125 | the text is the render of the current state; reading it changes nothing |
| Schema.SchemaBuilder.Reset | modules/schema-builder/src/SchemaBuilder.ts:139-149 | every list empties, the schema goes, the builder is returned |
| Schema.BuildAfterReset | modules/schema-builder/src/SchemaBuilder.ts:139-149 | a reset builder builds "" |
| Schema.BuildOrder | modules/schema-builder/src/SchemaBuilder.ts:109-125 | through the class: insertion order across categories does not change the render order |
| Mapping.RecordType | modules/server/src/mapping/flattenMapping.ts:21-30 | a record type is never empty |
| Mapping.FlattenCount | modules/server/src/mapping/flattenMapping.ts:18-35 | exactly one record per node, at every depth |
| Mapping.FlattenAppend | modules/server/src/mapping/flattenMapping.ts:19-20 | sibling lists flatten independently, in key order |
| Mapping.FlattenLayout | modules/server/src/mapping/flattenMapping.ts:26-31 | each entry's records form one block, placed after those of the entries before it |
| Mapping.FlattenFieldHead | modules/server/src/mapping/flattenMapping.ts:21-30 | an entry's own record comes first, with its dotted path and its type or the `unknown`/`object` default |
| Mapping.FlattenPathPrefix | modules/server/src/mapping/flattenMapping.ts:23-31 | every record below a parent has a path starting with the parent and a dot |
| Mapping.ChildPrefix | modules/server/src/mapping/flattenMapping.ts:31 | a path below a child is below the child's parent |
| Mapping.GetNestedFields | modules/server/src/mapping/getNestedFields.ts:10 | an undefined mapping gives no path |
| Mapping.NestedAreFlattenedNested | modules/server/src/mapping/getNestedFields.ts:10-14 | the result is exactly the non-empty paths of the `nested` records of the flattened mapping, in pre-order |
| Mapping.RecordTypeNested | modules/server/src/mapping/getNestedFields.ts:12 | a record is `nested` iff its node declares `nested` |
| Mapping.NestedEntryListed | modules/server/src/mapping/getNestedFields.ts:11-12 | a nested entry is listed under its dotted path |
| Mapping.NestedAppend | modules/server/src/mapping/getNestedFields.ts:10-12 | siblings contribute in key order |
| ReplaceBy.ReplaceBy | modules/server/src/utils/replaceBy.ts:1-9 | the result has the length of the first list; each element is its own or a matching one of the second list |
| ReplaceBy.ReplaceByFirstMatch | modules/server/src/utils/replaceBy.ts:8 | position i holds the first match, unless that match is falsy |
| ReplaceBy.ReplaceByNoMatch | modules/server/src/utils/replaceBy.ts:8 | an unmatched element stays |
| ReplaceBy.ReplaceByNothing | modules/server/src/utils/replaceBy.ts:7-8 | with an empty or missing second list the first comes back |
| FieldNames.ToGraphQlIsReplace | modules/components/src/AdvancedFacetView/LiveAdvancedFacetView.tsx:41 | every dot becomes `__` |
| FieldNames.ToPathIsReplace | modules/components/src/AdvancedFacetView/LiveAdvancedFacetView.tsx:42 | every leftmost `__` becomes a dot |
| FieldNames.ToGraphQlHasNoDot | modules/components/src/AdvancedFacetView/LiveAdvancedFacetView.tsx:41 | a GraphQL name holds no dot |
| FieldNames.RoundTrip | modules/components/src/AdvancedFacetView/LiveAdvancedFacetView.tsx:41-42 | path → name → path is the identity for paths without `_` |
| FieldNames.RoundTripFromName | modules/components/src/AdvancedFacetView/LiveAdvancedFacetView.tsx:41-42 | name → path → name is the identity for names whose pieces hold no `_` or `.` |
| FieldNames.UnderscoreBeforeDotIsLost | modules/components/src/AdvancedFacetView/LiveAdvancedFacetView.tsx:41-42 | `a_.b` comes back as `a._b`: the round trip needs the underscore condition |
| FieldNames.UnderscoreField | modules/components/src/Stats/Stats.tsx:11 | missing or "" gives ""; otherwise the GraphQL name |
| LiveFacetView.AggBlock | modules/components/src/AdvancedFacetView/LiveAdvancedFacetView.tsx:48-54 | a block holds the name and then its selection at fixed offsets |
| LiveFacetView.Blocks | modules/components/src/AdvancedFacetView/LiveAdvancedFacetView.tsx:43-56 | one block per extended entry |
| LiveFacetView.EntryNamedFound | modules/components/src/AdvancedFacetView/LiveAdvancedFacetView.tsx:47 | the lookup by GraphQL name always finds an entry, so `.type` never throws |
| LiveFacetView.BlockUsesOwnType | modules/components/src/AdvancedFacetView/LiveAdvancedFacetView.tsx:47-53 | without an earlier name clash a block uses the entry's own type: buckets iff the table says `Aggregations`, else stats |
| LiveFacetView.SameNameSameBlock | modules/components/src/AdvancedFacetView/LiveAdvancedFacetView.tsx:47 | entries with the same GraphQL name get the same block, from the first of them |
| LiveFacetView.QueryLayout | modules/components/src/AdvancedFacetView/LiveAdvancedFacetView.tsx:44-56 | the query holds each block right after the blocks before it |
| LiveFacetView.Rekey | modules/components/src/AdvancedFacetView/LiveAdvancedFacetView.tsx:71 | a missing aggregations object gives {} |
| LiveFacetView.RekeyKeys | modules/components/src/AdvancedFacetView/LiveAdvancedFacetView.tsx:71-77 | the keys are exactly the dotted paths of the response keys |
| LiveFacetView.RekeyValue | modules/components/src/AdvancedFacetView/LiveAdvancedFacetView.tsx:72-75 | a key whose path no later key shares keeps its value |
| LiveFacetView.RekeyRestoresPath | modules/components/src/AdvancedFacetView/LiveAdvancedFacetView.tsx:71-77 | the GraphQL name of an underscore-free path is re-keyed to that path |
| LiveFacetView.RemoveFieldTypes | modules/components/src/AdvancedFacetView/LiveAdvancedFacetView.tsx:81-114 | never more entries than before, and no other entries: the result is made of pruned copies (see `RemoveMembers`), in key order (see `RemoveKeepsKeyOrder`) |
| LiveFacetView.Prune | modules/components/src/AdvancedFacetView/LiveAdvancedFacetView.tsx:88-104 | a kept entry keeps its key, type and whether it has `properties` |
| LiveFacetView.RemoveIsClean | modules/components/src/AdvancedFacetView/LiveAdvancedFacetView.tsx:84-106 | no excluded entry survives, at any depth |
| LiveFacetView.CleanIsFixed | modules/components/src/AdvancedFacetView/LiveAdvancedFacetView.tsx:88-104 | a mapping with nothing to exclude comes back unchanged |
| LiveFacetView.RemoveIdempotent | modules/components/src/AdvancedFacetView/LiveAdvancedFacetView.tsx:81-114 | removing twice removes nothing more |
| LiveFacetView.RemoveNothing | modules/components/src/AdvancedFacetView/LiveAdvancedFacetView.tsx:81 | the default empty exclude list changes nothing |
| LiveFacetView.RemoveMembers | modules/components/src/AdvancedFacetView/LiveAdvancedFacetView.tsx:83-111 | an entry is in the top-level result iff it is the pruned copy of an entry whose full path is not excluded |
| LiveFacetView.RemoveKeepsKeyOrder | modules/components/src/AdvancedFacetView/LiveAdvancedFacetView.tsx:83-111 | the kept keys appear in the result in the order they had in the mapping |
| LiveFacetView.UndescribedIsKept | modules/components/src/AdvancedFacetView/LiveAdvancedFacetView.tsx:85-87 | an entry with no extended entry is kept |
| LiveFacetView.DenyListed | modules/components/src/AdvancedFacetView/LiveAdvancedFacetView.tsx:147-150 | object, nested and every excluded type are deny-listed |
| LiveFacetView.FilterExtendedForFetchingAggs | modules/components/src/AdvancedFacetView/LiveAdvancedFacetView.tsx:152-160 | a missing list stays missing; an entry is kept iff its type is not deny-listed and the first facet aggregation at its path is active; the kept entries keep their order |
| LiveFacetView.ActiveByGraphQlName | modules/components/src/AdvancedFacetView/LiveAdvancedFacetView.tsx:157 | an active aggregation named by the GraphQL name of an underscore-free path activates that path |
| LiveFacetView.VisibleExtended | modules/components/src/AdvancedFacetView/LiveAdvancedFacetView.tsx:216 | an entry is passed down iff its type is not excluded; the entries keep their order |
| LiveFacetView.FetchedAreVisible | modules/components/src/AdvancedFacetView/LiveAdvancedFacetView.tsx:147-160 | every entry whose aggregation is fetched is also shown |
| AdvancedFacetView.Step | modules/components/src/AdvancedFacetView/index.tsx:73 | a truthy direct key wins; else the node's `properties`; else {}; a `null`/`undefined` node throws |
| AdvancedFacetView.OneSegmentDirect | modules/components/src/AdvancedFacetView/index.tsx:67-77 | a one-segment path with a truthy key gives that child |
| AdvancedFacetView.OneSegmentMissing | modules/components/src/AdvancedFacetView/index.tsx:67-77 | a one-segment path with neither key nor `properties` gives {} |
| AdvancedFacetView.TwoSegmentsThroughProperties | modules/components/src/AdvancedFacetView/index.tsx:71-75 | `a.b` reaches `mapping.a.properties.b` when `a` has no direct key `b` |
| AdvancedFacetView.MissingMiddleThrows | modules/components/src/AdvancedFacetView/index.tsx:67-77 | as written, a missing middle segment makes the lookup throw |
| AdvancedFacetView.SafeFieldMappingFromPath | modules/components/src/AdvancedFacetView/index.tsx:67-77 | the corrected lookup always gives a truthy value |
| AdvancedFacetView.SafeAgrees | modules/components/src/AdvancedFacetView/index.tsx:67-77 | the corrected lookup agrees with the original wherever the original does not throw |
| AdvancedFacetView.SafeWalkAgrees | modules/components/src/AdvancedFacetView/index.tsx:71-75 | from any node, the corrected segment walk gives the value of the original walk wherever the original does not throw |
| AdvancedFacetView.SafeMissingMiddle | modules/components/src/AdvancedFacetView/index.tsx:67-77 | on the throwing input the corrected lookup gives {} |
| AdvancedFacetView.ConstructFilterId | modules/components/src/AdvancedFacetView/index.tsx:79-80 | the id starts with the field name; it is the field name iff the value is falsy, else it is followed by `---` and the value |
| AggsState.QueryFromAgg | modules/components/src/aggregations/AggsState.tsx:9-30 | the field name, then the buckets body iff the type is `Aggregations`, else the stats body |
| AggsState.QueryRevealsKind | modules/components/src/aggregations/AggsState.tsx:9-30 | the query's length tells the two kinds apart |
| AggsState.QueryRevealsField | modules/components/src/aggregations/AggsState.tsx:9-30 | equal queries mean the same field and the same kind |
| AggsState.KindsDiffer | modules/components/src/aggregations/AggsState.tsx:9-30 | a terms query never equals a stats query |
| AggsState.Decorate | modules/components/src/aggregations/AggsState.tsx:132-144 | `type` is the table's entry for the display type, `query` is recomputed, `isTerms` is true iff the type is `Aggregations`; every other key is kept |
| AggsState.DecorateIdempotent | modules/components/src/aggregations/AggsState.tsx:132-144 | decorating twice changes nothing more |
| AggsState.RenderedIdempotent | modules/components/src/aggregations/AggsState.tsx:128-144 | rendering the rendered list again gives the same list, since decorating a decorated aggregation changes nothing |
| AggsState.LoadedAggregations | modules/components/src/aggregations/AggsState.tsx:38-48 | a missing list loads as []; a missing configuration throws and loads nothing |
| AggsState.FirstRenderLoads | modules/components/src/aggregations/AggsState.tsx:53-64 | the first render fetches |
| AggsState.LoadedIsStable | modules/components/src/aggregations/AggsState.tsx:56-62 | the same props with a loaded list do not refetch |
| AggsState.ChangedPropsReload | modules/components/src/aggregations/AggsState.tsx:56-63 | a changed document type or configuration refetches |
| AggsState.SetKey | modules/components/src/aggregations/AggsState.tsx:108 | the key holds the value, other keys are kept, no other key appears |
| AggsState.AggsStore.constructor | modules/components/src/aggregations/AggsState.tsx:33 | both lists start empty |
| AggsState.AggsStore.Load | modules/components/src/aggregations/AggsState.tsx:38-48 | both lists become the configured aggregations; a throwing read changes nothing |
| AggsState.AggsStore.Update | modules/components/src/aggregations/AggsState.tsx:103-114 | `temp` changes at the first match only and `aggs` never changes |
| AggsState.UpdateChangesOnlyTheMatch | modules/components/src/aggregations/AggsState.tsx:105-109 | same length; the first match gets the key set; every other entry, a later match included, is unchanged |
| AggsState.UpdateWithoutMatch | modules/components/src/aggregations/AggsState.tsx:106-108 | with no match (index -1) no entry changes |
| AggsState.UpdateTwice | modules/components/src/aggregations/AggsState.tsx:103-114 | repeating an update changes nothing more |
| Stats.ConstructQuery | modules/components/src/Stats/Stats.tsx:16-28 | the settings lines sit right after the `filters` line, and the selection just before the closing braces |
| Stats.SettingsBlankIff | modules/components/src/Stats/Stats.tsx:21-22 | the settings lines are blank iff the resolver is not `aggregations` |
| Stats.DefaultResolverSettings | modules/components/src/Stats/Stats.tsx:16-22 | the default resolver asks for `include_missing: false` and `aggregations_filter_themselves: true` |
| Stats.AggsField | modules/components/src/Stats/Stats.tsx:79 | the first aggregation whose field name is the underscored name; none iff none has it |
| Stats.Accessor | modules/components/src/Stats/Stats.tsx:13-14 | the underscored field name, a dot and the tail; a non-string field name throws |
| Stats.AccessorSplits | modules/components/src/Stats/Stats.tsx:13-14 | split at dots, the accessor is the name's pieces followed by the tail's |
| Stats.FindsDecorated | modules/components/src/Stats/Stats.tsx:79 | a dotless field name finds its decorated aggregation in the rendered list |
| Stats.AccessorOfDecorated | modules/components/src/Stats/Stats.tsx:13-14 | a decorated aggregation is read at its bucket count or stats count, as its type says |
| QuickSearch.ValidHasTwoNonSpace | modules/components/src/QuickSearch/QuickSearchQuery.tsx:9 | a valid value holds two non-whitespace characters |
| QuickSearch.TwoNonSpaceIsValid | modules/components/src/QuickSearch/QuickSearchQuery.tsx:9 | a value with two non-whitespace characters is valid |
| QuickSearch.BlankTextNeverFetches | modules/components/src/QuickSearch/QuickSearchQuery.tsx:131 | missing, blank or one-character text never fetches, whatever the fields |
| QuickSearch.DecorateFieldWithColumnsState | modules/components/src/QuickSearch/QuickSearchQuery.tsx:11-31 | null iff the field name is missing or empty; otherwise the column with `gqlField`, `jsonPath` and `query` (the column's, else the field name) |
| QuickSearch.JsonPathIsLastSegment | modules/components/src/QuickSearch/QuickSearchQuery.tsx:23 | `jsonPath` is `$..` and the last segment |
| QuickSearch.JsonPathSegmentHasNoDot | modules/components/src/QuickSearch/QuickSearchQuery.tsx:23 | the segment after `$..` holds no dot |
| QuickSearch.ExactImpliesLoose | modules/components/src/QuickSearch/QuickSearchQuery.tsx:33-35 | an exact match is also a loose match |
| QuickSearch.LooseIgnoresCase | modules/components/src/QuickSearch/QuickSearchQuery.tsx:34 | loose matching ignores (ASCII) case |
| QuickSearch.LooseFindsInfix | modules/components/src/QuickSearch/QuickSearchQuery.tsx:34 | text inside the value matches loosely |
| QuickSearch.Wildcard | modules/components/src/QuickSearch/QuickSearchQuery.tsx:92 | the part between two `*` |
| QuickSearch.BuildSqon | modules/components/src/QuickSearch/QuickSearchQuery.tsx:79-99 | exact: one `in` clause per field with all parts; otherwise one `filter` clause per part, `*part*` over all field names; a `null` field throws |
| QuickSearch.SearchTextPartsIdempotent | modules/components/src/QuickSearch/QuickSearchQuery.tsx:70-77 | applying the optional lower-casing to the parts a second time changes nothing |
| QuickSearch.SearchTextPartsMatchLoosely | modules/components/src/QuickSearch/QuickSearchQuery.tsx:33-35 | a part matches a value loosely exactly when the part as typed does, so `searchLowercase` only affects exact matching |
| QuickSearch.StringFieldNames | modules/components/src/QuickSearch/QuickSearchQuery.tsx:91 | string search fields are their own field names |
| FacetView.SerializeToDomId | modules/components/src/AdvancedFacetView/FacetView.tsx:7 | every dot becomes `__`; no dot remains |
| FacetView.Flatten | modules/components/src/AdvancedFacetView/FacetView.tsx:9-14 | only leaves are returned |
| FacetView.FlattenIsLeavesInPreOrder | modules/components/src/AdvancedFacetView/FacetView.tsx:9-14 | exactly the leaves, in left-to-right depth-first order |
| FacetView.Ancestors | modules/components/src/AdvancedFacetView/FacetView.tsx:63-65 | entry i is the first i+1 segments joined by dots |
| FacetView.AncestorPaths | modules/components/src/AdvancedFacetView/FacetView.tsx:63-65 | one entry per segment |
| FacetView.LastAncestorIsPath | modules/components/src/AdvancedFacetView/FacetView.tsx:63-65 | the last entry is the path itself |
| FacetView.AncestorIsDottedPrefix | modules/components/src/AdvancedFacetView/FacetView.tsx:63-65 | a proper ancestor and a dot start the path |
| FacetView.AncestorSegments | modules/components/src/AdvancedFacetView/FacetView.tsx:63-65 | an ancestor splits into the first segments of the path |
| FacetView.Breadcrumbs | modules/components/src/AdvancedFacetView/FacetView.tsx:66-68 | one display name per proper ancestor, in order |
| FacetView.TopLevelHasNoBreadcrumbs | modules/components/src/AdvancedFacetView/FacetView.tsx:107 | a top-level path has no breadcrumb |
| FacetView.BucketItemClassName | modules/components/src/AdvancedFacetView/FacetView.tsx:79-81 | four space-separated tokens: row, column, last-row flag, only-row flag |
| FacetView.LastRowIff | modules/components/src/AdvancedFacetView/FacetView.tsx:80 | `last_row` iff the bucket's row is the row of the last showing bucket |
| FacetView.OnlyRowIff | modules/components/src/AdvancedFacetView/FacetView.tsx:81 | `only_row` iff at most four buckets show |
| FacetView.OnlyRowIsLastRow | modules/components/src/AdvancedFacetView/FacetView.tsx:80-81 | in a single row every showing bucket is in the last row |
| FacetView.GridPosition | modules/components/src/AdvancedFacetView/FacetView.tsx:75-80 | with eight terms there are two rows of four, and row and column give back the index |
| Aggregations.Overlay | modules/components/src/aggregations/Aggregations.tsx:64-83 | a key is present iff some layer has it |
| Aggregations.OverlayLastWins | modules/components/src/aggregations/Aggregations.tsx:64-83 | a key takes the value of the last layer holding it |
| Aggregations.FindExtended | modules/components/src/aggregations/Aggregations.tsx:67 | the extended entry whose underscored field name equals the aggregation's; a non-string field name throws |
| Aggregations.CustomContent | modules/components/src/aggregations/Aggregations.tsx:77 | always truthy; {} without custom facets |
| Aggregations.AggPropsPriority | modules/components/src/aggregations/Aggregations.tsx:64-83 | the props are the overlay, in order, of config, response data, extended entry, handlers and custom content |
| Aggregations.AggProps | modules/components/src/aggregations/Aggregations.tsx:64-83 | a missing extended entry throws; otherwise the props are the overlay of the four base layers and then the spread custom content found by the merged `fieldName` |
| Aggregations.FiveLayers | modules/components/src/aggregations/Aggregations.tsx:64-83 | over five spread layers a key is present iff some layer has it, and takes its value from the last layer that has it |
| Aggregations.KeyIsConfigFieldName | modules/components/src/aggregations/Aggregations.tsx:72 | without custom content, `key` is the configured field name |
| Aggregations.ExtendedRenamesField | modules/components/src/aggregations/Aggregations.tsx:65-67 | the extended entry's dotted `fieldName` overrides the configured one unless custom content sets it |
| Aggregations.InsertSorted | modules/components/src/aggregations/Aggregations.tsx:88 | insertion keeps the items sorted by index |
| Aggregations.InsertPermutes | modules/components/src/aggregations/Aggregations.tsx:88 | insertion adds exactly one item |
| Aggregations.SortByIndex | modules/components/src/aggregations/Aggregations.tsx:88 | a sorted permutation of the items |
| Aggregations.SortIsStable | modules/components/src/aggregations/Aggregations.tsx:88 | items of equal index keep their given order |
| Aggregations.InsertAt | modules/components/src/aggregations/Aggregations.tsx:92-94 | one more element, the component at the clamped index, the rest unchanged around it |
| Aggregations.InsertAll | modules/components/src/aggregations/Aggregations.tsx:91-95 | length is instances plus items, instances keep their relative order |
| Aggregations.ListDisplay | modules/components/src/aggregations/Aggregations.tsx:86-107 | no list iff there is no data; otherwise instances and items, instances in order |
| Aggregations.InsertAllKeeps | modules/components/src/aggregations/Aggregations.tsx:91-95 | an instance before every item's index keeps its place |
| Aggregations.InsertAllPlacesItems | modules/components/src/aggregations/Aggregations.tsx:91-95 | with distinct ascending indices each item ends at its index |
| Aggregations.TiesEndReversed | modules/components/src/aggregations/Aggregations.tsx:88-95 | two items with the same index end in reverse order: each is inserted in front of the other |
| MatchBoxState.ColumnsDecoration | modules/components/src/MatchBox/MatchBoxState.ts:46-60 | the decoration call names no `fieldName`, so it spreads nothing |
| MatchBoxState.SearchField | modules/components/src/MatchBox/MatchBoxState.ts:53-60 | a search field is `{field, entityName}` |
| MatchBoxState.ActiveField | modules/components/src/MatchBox/MatchBoxState.ts:43-61 | succeeds iff `searchFields` is an array; `keyFieldName` is `{fieldName}`; each search field is `{field, entityName: displayName}`; other keys kept |
| MatchBoxState.ActiveFields | modules/components/src/MatchBox/MatchBoxState.ts:40-63 | succeeds iff every active entry has an array of search fields |
| MatchBoxState.ActiveFieldsAreActiveEntries | modules/components/src/MatchBox/MatchBoxState.ts:41-42 | one result per active entry, in order, each active and keeping its `field` |
| MatchBoxState.InactiveEntriesAreSkipped | modules/components/src/MatchBox/MatchBoxState.ts:42 | an inactive entry never makes the mapping throw |
| MatchBoxState.PrimaryKeyField | modules/components/src/MatchBox/MatchBoxState.ts:200 | an entry with a truthy `primaryKey`; none iff no entry has one |
| MatchBoxState.PrimaryKeyIsFirst | modules/components/src/MatchBox/MatchBoxState.ts:200 | the first such entry is chosen |
| MatchBoxState.UpdateChangesOnlyTheMatch | modules/components/src/MatchBox/MatchBoxState.ts:171-175 | same length; the first entry of the field gets the key set; every other entry, a later entry of the same field included, is unchanged |
| MatchBoxState.UpdateWithoutMatch | modules/components/src/MatchBox/MatchBoxState.ts:172-175 | with no entry of the field (index -1) nothing changes |
| MatchBoxState.MatchBoxStore.constructor | modules/components/src/MatchBox/MatchBoxState.ts:30-36 | the initial state: empty lists, {} columns, no error |
| MatchBoxState.MatchBoxStore.Fetched | modules/components/src/MatchBox/MatchBoxState.ts:101-135 | success replaces every field, sets `temp` to the fetched state and hands the completion the active fields of the fetched state (the corrected completion); failure records the error only and hands the completion nothing |
| MatchBoxState.MatchBoxStore.Update | modules/components/src/MatchBox/MatchBoxState.ts:168-181 | `temp` changes at the first entry of the field and is what gets saved; `matchBoxState` is untouched |
| MatchBoxState.MatchBoxStore.Saved | modules/components/src/MatchBox/MatchBoxState.ts:159-163 | the server's state becomes both `matchBoxState` and `temp` |
| MatchBoxState.CompletionIgnoresFetched | modules/components/src/MatchBox/MatchBoxState.ts:110-133 | as written, the completion hands the callback the same value whatever state was fetched |
| MatchBoxState.InitialLoadReportsNoActiveFields | modules/components/src/MatchBox/MatchBoxState.ts:65-139 | on the first load the completion reports no active field although the fetched state has one |

## Specification functions

These functions model source code but carry no contract of their own, or one that
only spells out their definition. Each one is what the listed lemmas are about, so its
behaviour is stated in those rows.

- Mapping.FlattenFields, Mapping.FlattenField, Mapping.FlattenMapping
  (modules/server/src/mapping/flattenMapping.ts:18-35): `Mapping.FlattenLayout`,
  `Mapping.FlattenCount`, `Mapping.FlattenPathPrefix`, `Mapping.FlattenFieldHead`,
  `Mapping.FlattenAppend`.
- Mapping.NestedFields, Mapping.NestedField (modules/server/src/mapping/getNestedFields.ts:10-14):
  `Mapping.NestedAreFlattenedNested`, `Mapping.NestedEntryListed`, `Mapping.NestedAppend`.
- AdvancedFacetView.Walk, AdvancedFacetView.FieldMappingFromPath
  (modules/components/src/AdvancedFacetView/index.tsx:67-77): `AdvancedFacetView.OneSegmentDirect`,
  `AdvancedFacetView.OneSegmentMissing`, `AdvancedFacetView.TwoSegmentsThroughProperties`,
  `AdvancedFacetView.MissingMiddleThrows`, `AdvancedFacetView.SafeWalkAgrees`.
- LiveFacetView.AggregationQuery (modules/components/src/AdvancedFacetView/LiveAdvancedFacetView.tsx:44-56):
  `LiveFacetView.QueryLayout`, `LiveFacetView.Blocks`.
- LiveFacetView.EntryNamed, LiveFacetView.BlockOf (LiveAdvancedFacetView.tsx:47-53):
  `LiveFacetView.EntryNamedFound`, `LiveFacetView.SameNameSameBlock`,
  `LiveFacetView.BlockUsesOwnType`.
- LiveFacetView.RekeyEntries (LiveAdvancedFacetView.tsx:71-77): `LiveFacetView.RekeyKeys`,
  `LiveFacetView.RekeyRestoresPath`.
- LiveFacetView.Excluded, LiveFacetView.Clean (LiveAdvancedFacetView.tsx:84-111):
  `LiveFacetView.UndescribedIsKept`, `LiveFacetView.RemoveIsClean`, `LiveFacetView.CleanIsFixed`.
- LiveFacetView.ActiveFacet, LiveFacetView.Fetched (LiveAdvancedFacetView.tsx:147-160):
  `LiveFacetView.ActiveByGraphQlName`, `LiveFacetView.FilterExtendedForFetchingAggs`,
  `LiveFacetView.FetchedAreVisible`.
- FieldNames.ToGraphQl, FieldNames.ToPath (LiveAdvancedFacetView.tsx:41-42):
  `FieldNames.ToGraphQlIsReplace`, `FieldNames.ToGraphQlHasNoDot`, `FieldNames.ToPathIsReplace`,
  `FieldNames.RoundTrip`, `FieldNames.UnderscoreBeforeDotIsLost`.
- QuickSearch.IsValidValue (modules/components/src/QuickSearch/QuickSearchQuery.tsx:9):
  `QuickSearch.TwoNonSpaceIsValid`, `QuickSearch.ValidHasTwoNonSpace`.
- QuickSearch.IsMatching (QuickSearchQuery.tsx:33-35): `QuickSearch.ExactImpliesLoose`,
  `QuickSearch.LooseFindsInfix`, `QuickSearch.LooseIgnoresCase`.
- QuickSearch.JsonPath (QuickSearchQuery.tsx:23): `QuickSearch.JsonPathIsLastSegment`,
  `QuickSearch.JsonPathSegmentHasNoDot`.
- QuickSearch.ShouldFetch (QuickSearchQuery.tsx:131): `QuickSearch.BlankTextNeverFetches`.
- AggsState.ShouldRefetch (modules/components/src/aggregations/AggsState.tsx:53-64): `AggsState.FirstRenderLoads`,
  `AggsState.LoadedIsStable`, `AggsState.ChangedPropsReload`.
- AggsState.AggType (AggsState.tsx:132-144) is the `type` that `AggsState.Decorate` states.
- AggsState.AggsStore.View, AggsState.Rendered (AggsState.tsx:128-144): the rendered list of
  the store's `temp`, stated by `AggsState.Decorate`, `AggsState.RenderedIdempotent` and
  `Stats.FindsDecorated`.
- Schema.Classify, Schema.File, Schema.FileAll (modules/schema-builder/src/SchemaBuilder.ts:81-104):
  `Schema.ClassifySpec`, `Schema.FirstMatchSpec`, `Schema.FileEffect`, `Schema.FileCommutes`,
  `Schema.FileAllList`, `Schema.FileAllTrimmed`, `Schema.FileAllSchema`.
- SchemaUtils.StripMarker (SchemaBuilder.ts:130-134): `SchemaUtils.CleanTypeDefCases`,
  `SchemaUtils.MarkerOnlyAtStart`, `SchemaUtils.CleanRemovesOneMarker`.
- SchemaUtils.TypeNames (modules/schema-builder/src/utils.ts:60-71):
  `SchemaUtils.ExtractTypeNames`, `SchemaUtils.TypeNamesInOrder`, `SchemaUtils.TypeNamesExample`.
- SchemaUtils.Interleave, SchemaUtils.Gql (utils.ts:38-44): `SchemaUtils.GqlWithoutValues`,
  `SchemaUtils.CleanGql`.
- SchemaUtils.Deduplicated, SchemaUtils.DedupFrom (utils.ts:76-91): `SchemaUtils.DeduplicatedSpec`,
  `SchemaUtils.DeduplicatedStep`, `SchemaUtils.DedupSnoc`, `SchemaUtils.DedupIsSubsequence`,
  `SchemaUtils.DedupKeepsOnlyNewNames`, `SchemaUtils.DedupCoversAllNames`,
  `SchemaUtils.DeduplicateExample`.
- Stats.Settings (modules/components/src/Stats/Stats.tsx:16-22): `Stats.SettingsBlankIff`, `Stats.ConstructQuery`.
- Mapping.JoinWith (modules/server/src/mapping/flattenMapping.ts:13-16): `Mapping.FlattenPathPrefix`,
  `Mapping.ChildPrefix`.
- ReplaceBy.OrEmpty (modules/server/src/utils/replaceBy.ts:6-7): `ReplaceBy.ReplaceBy`,
  `ReplaceBy.ReplaceByFirstMatch`.
- Stats.UnderscoreValue, Stats.AccessorTail (Stats.tsx:11-14): `Stats.Accessor`,
  `Stats.AccessorSplits`, `Stats.AccessorOfDecorated`.
- QuickSearch.ColumnsStateField (QuickSearchQuery.tsx:13-16): `QuickSearch.DecorateFieldWithColumnsState`.
- QuickSearch.SearchTextParts (QuickSearchQuery.tsx:70-77): `QuickSearch.SearchTextPartsIdempotent`,
  `QuickSearch.SearchTextPartsMatchLoosely`.
- Aggregations.ResponseData, Aggregations.Handlers (modules/components/src/aggregations/Aggregations.tsx:64-83):
  `Aggregations.AggPropsPriority`, `Aggregations.AggProps`, `Aggregations.FiveLayers`.
- Aggregations.SliceIndex (Aggregations.tsx:92-93): `Aggregations.InsertAt`.
- MatchBoxState.CompletionActiveFieldsAsWritten (modules/components/src/MatchBox/MatchBoxState.ts:110-133):
  `MatchBoxState.CompletionIgnoresFetched`, `MatchBoxState.InitialLoadReportsNoActiveFields`.
- FacetView.PreOrder (modules/components/src/AdvancedFacetView/FacetView.tsx:9-14): `FacetView.FlattenIsLeavesInPreOrder`.

## Left out

- Filter-tree algebra (`toggleSQON`, `replaceSQON` and the rest) is only imported by the
  core files; it is not part of this model.
- Mapping extension, the server's GraphQL wiring, resolvers and Elasticsearch fetching are
  not part of this model.
- esToAggTypeMap is a parameter. `AggsState` reads it as a `map<string, Value>`, where a
  missing key reads `undefined`. `LiveFacetView` reads it as a `map<string, string>`, where
  only whether an entry reads `Aggregations` matters, and an entry without a type is
  looked up under the key `undefined`.
- Network I/O, `debounce`, `setTimeout`, `console` and React scheduling are left out. The
  store methods are the `setState` calls and the values they are given; the fetch's
  response is a parameter.
- The MatchBox `save` API call is left out. `Update` returns the list that would be
  saved, and `Saved` applies the server's answer.
- The JSX rendering, `aggComponents[displayType]` and `componentProps` are left out.
  Instances and custom components are opaque values.
- The FacetView render is left out. That covers the `metaData` lookup, scrolling, text
  highlighting and `aggComponentsMap`.
- JSONPath evaluation, lodash `uniqBy`/`difference` and the QuickSearch query text and
  results are left out.
- splitString (the delimiter split of the search text) is not part of this model.
  `QuickSearch.SearchTextParts` takes the parts as given and only applies the optional
  lower-casing.
- toLowerCase is ASCII case folding, with no Unicode case mapping.
- trim and `\s` use the ECMAScript whitespace set, written out. The regular
  expressions are hand-written scanners with the same behaviour.
- Object key order is not modelled for records (aggregations, columns, extended
  entries). It is modelled for mapping trees, whose key order decides output order.
- isEqual deep equality is value equality of the modelled data.
- LiveFacetView.Rekey takes the response's `aggregations` as a list of entries in key
  order. Reading `data[index]` itself is left out with the network.
- FacetView.Flatten treats a node as a branch exactly when it has a `children` list. A
  truthy non-array `children` value is not modelled.
- MatchBoxState.MatchBoxStore assumes `temp`, `extended` and the fetched lists are
  arrays. The optional chaining on a `null` `temp` is not modelled.
- MatchBoxState.CompletionActiveFieldsAsWritten models only the completion's result
  list, not the `setTimeout` that delays it.
- AggsState.AggsStore.Load models the effect of the debounced fetch once it runs, not
  the 300 ms delay or which of several calls wins.
- Js.Get reads only an object's own properties. A string's or array's `length` and
  indices, and inherited properties such as `constructor`, read as `undefined`. So a path
  segment like `length` or `constructor` in `AdvancedFacetView.Step` finds nothing where
  JavaScript would find a value.
- Js.Spread adds nothing for strings and arrays. JavaScript spreads their indices as keys
  (`{...'ab'}` is `{0: 'a', 1: 'b'}`). A custom `content` that is a string or array is
  therefore not modelled in `Aggregations.AggProps`.
- Floating point, dates and the range and date aggregations are not part of this model.

## Findings

| source | as written | input that shows it | evidently intended | confidence | as-written member | corrected member |
|---|---|---|---|---|---|---|
| modules/components/src/AdvancedFacetView/index.tsx:67-77 | a step through a truthy `properties` object that lacks the segment yields `undefined`, and the next step reads a key of `undefined` and throws | mapping `{a: {properties: {}}}`, path `a.b.c` | a missing node anywhere on the path gives `{}`, like a one-step miss | not executed | AdvancedFacetView.MissingMiddleThrows | AdvancedFacetView.SafeFieldMappingFromPath |
| modules/components/src/MatchBox/MatchBoxState.ts:110-133 | the completion callback reads `state.temp` from the closure the memoised fetch captured, not the state just fetched | first load: captured `temp` is `[]`, the fetched state holds one active entry; `onInitialLoaded` receives `activeFields: []` | the completion reports the active fields of the fetched state | not executed | MatchBoxState.InitialLoadReportsNoActiveFields | MatchBoxState.MatchBoxStore.Fetched |
