/** The aggregations panel's list: the props each facet is rendered with, merged
    from five layers, and the custom items spliced into the list of facets in
    ascending order of their `index`. */
module Aggregations {
  import opened Js
  import opened Seqs
  import opened FieldNames

  // ---------------------------------------------------------------------------
  // Layered spreads

  /** `{...layers[0], ...layers[1], ...}`: a later layer overrides an earlier
      one. */
  function Overlay(layers: seq<Object>): (r: Object)
    ensures forall k :: k in r <==> exists i :: 0 <= i < |layers| && k in layers[i]
    decreases |layers|
  {
    if layers == [] then map[] else Overlay(layers[..|layers| - 1]) + layers[|layers| - 1]
  }

  /** A key takes its value from the last layer that has it. */
  lemma {:induction false} OverlayLastWins(layers: seq<Object>, i: nat, k: string)
    requires i < |layers| && k in layers[i]
    requires forall j :: i < j < |layers| ==> k !in layers[j]
    ensures k in Overlay(layers) && Overlay(layers)[k] == layers[i][k]
    decreases |layers|
  {
    if i < |layers| - 1 {
      var init := layers[..|layers| - 1];
      assert init[i] == layers[i];
      forall j | i < j < |init|
        ensures k !in init[j]
      {
        assert init[j] == layers[j];
      }
      OverlayLastWins(init, i, k);
    }
  }

  // ---------------------------------------------------------------------------
  // The props of one facet

  /** `data?.[documentType]?.aggregations?.[agg?.fieldName]`, spread: the
      response's entry for the facet when the response has one. */
  function ResponseData(responseAggs: Option<Object>, agg: Object): (r: Object)
    ensures responseAggs.None? ==> r == map[]
    ensures responseAggs.Some? ==> r == Spread(Prop(responseAggs.value, ToText(Prop(agg, "fieldName"))))
  {
    if responseAggs.None? then map[]
    else Spread(Prop(responseAggs.value, ToText(Prop(agg, "fieldName"))))
  }

  /** `extendedMapping.find((e) => e.fieldName.replaceAll('.', '__') === agg.fieldName)`:
      an entry whose `fieldName` is not a string makes `replaceAll` throw, if the
      search reaches it. */
  function FindExtended(extended: seq<Object>, target: Value): (r: Result<Option<Object>>)
    ensures r.Ok? && r.value.Some? ==> (exists i :: 0 <= i < |extended| && extended[i] == r.value.value)
    ensures r.Ok? && r.value.Some? ==> (
      Prop(r.value.value, "fieldName").Str? && Str(ToGraphQl(Prop(r.value.value, "fieldName").s)) == target)
    ensures (forall i :: 0 <= i < |extended| ==> Prop(extended[i], "fieldName").Str?) ==> r.Ok?
    ensures r.Ok? && r.value.None? ==> forall i :: 0 <= i < |extended| ==>
      Prop(extended[i], "fieldName").Str? && Str(ToGraphQl(Prop(extended[i], "fieldName").s)) != target
    decreases |extended|
  {
    if extended == [] then Ok(None)
    else
      var name := Prop(extended[0], "fieldName");
      if !name.Str? then Err(TypeError("replaceAll is not a function"))
      else if Str(ToGraphQl(name.s)) == target then Ok(Some(extended[0]))
      else
        match FindExtended(extended[1..], target)
        case Err(e) => Err(e)
        case Ok(found) =>
          assert forall i :: 0 < i < |extended| ==> extended[i] == extended[1..][i - 1];
          Ok(found)
  }

  /** The handlers and identity added by the panel: `onValueChange`, `key`
      (the facet's own `fieldName`), `sqon` and `containerRef`. */
  function Handlers(agg: Object, onValueChange: Value, sqon: Value, containerRef: Value): (r: Object)
    ensures r.Keys == {"onValueChange", "key", "sqon", "containerRef"}
    ensures r["key"] == Prop(agg, "fieldName")
  {
    map["onValueChange" := onValueChange, "key" := Prop(agg, "fieldName"), "sqon" := sqon, "containerRef" := containerRef]
  }

  /** `customFacets.find((x) => x.content.fieldName === fieldName)?.content || {}`:
      a facet or content that is `null` or `undefined` throws when reached. */
  function CustomContent(customFacets: seq<Value>, fieldName: Value): (r: Result<Value>)
    ensures r.Ok? ==> Truthy(r.value)
    ensures customFacets == [] ==> r == Ok(Obj(map[]))
    decreases |customFacets|
  {
    if customFacets == [] then Ok(Obj(map[]))
    else
      match Get(customFacets[0], "content")
      case Err(e) => Err(e)
      case Ok(content) =>
        match Get(content, "fieldName")
        case Err(e) => Err(e)
        case Ok(name) =>
          if name == fieldName then Ok(if Truthy(content) then content else Obj(map[]))
          else CustomContent(customFacets[1..], fieldName)
  }

  /** The matched extended entry as a layer: nothing when none matched. */
  function ExtendedLayer(ext: Option<Object>): (r: Object)
    ensures ext.Some? ==> r == ext.value
    ensures ext.None? ==> r == map[]
  {
    if ext.Some? then ext.value else map[]
  }

  /** The first four layers: the agg config, the response data, the extended
      entry and the handlers. */
  function BaseLayers(agg: Object, responseAggs: Option<Object>, ext: Option<Object>,
                      onValueChange: Value, sqon: Value, containerRef: Value): (r: seq<Object>)
    ensures |r| == 4 && r[0] == agg && r[3] == Handlers(agg, onValueChange, sqon, containerRef)
  {
    [agg, ResponseData(responseAggs, agg), ExtendedLayer(ext), Handlers(agg, onValueChange, sqon, containerRef)]
  }

  /** The props of one facet, before the component props: the four base
      layers, then the custom content found by the `fieldName` they give. */
  function AggProps(agg: Object, responseAggs: Option<Object>, extended: seq<Object>, customFacets: seq<Value>,
                    onValueChange: Value, sqon: Value, containerRef: Value): (r: Result<Object>)
    ensures FindExtended(extended, Prop(agg, "fieldName")).Err? ==> r.Err?
    ensures r.Ok? ==> (
      var base := BaseLayers(agg, responseAggs, FindExtended(extended, Prop(agg, "fieldName")).value,
                             onValueChange, sqon, containerRef);
      var content := CustomContent(customFacets, Prop(Overlay(base), "fieldName"));
      content.Ok? && r.value == Overlay(base + [Spread(content.value)]))
  {
    match FindExtended(extended, Prop(agg, "fieldName"))
    case Err(e) => Err(e)
    case Ok(ext) =>
      var base := BaseLayers(agg, responseAggs, ext, onValueChange, sqon, containerRef);
      match CustomContent(customFacets, Prop(Overlay(base), "fieldName"))
      case Err(e) => Err(e)
      case Ok(content) => Ok(Overlay(base + [Spread(content)]))
  }

  /** Five layers: a key takes its value from the last of them that has it. */
  lemma FiveLayers(l0: Object, l1: Object, l2: Object, l3: Object, l4: Object, k: string)
    ensures var r := Overlay([l0, l1, l2, l3, l4]);
      (k in r <==> k in l4 || k in l3 || k in l2 || k in l1 || k in l0)
      && (k in l4 ==> r[k] == l4[k])
      && (k !in l4 && k in l3 ==> r[k] == l3[k])
      && (k !in l4 && k !in l3 && k in l2 ==> r[k] == l2[k])
      && (k !in l4 && k !in l3 && k !in l2 && k in l1 ==> r[k] == l1[k])
      && (k !in l4 && k !in l3 && k !in l2 && k !in l1 && k in l0 ==> r[k] == l0[k])
  {
    var layers := [l0, l1, l2, l3, l4];
    if k in l4 {
      OverlayLastWins(layers, 4, k);
    } else if k in l3 {
      OverlayLastWins(layers, 3, k);
    } else if k in l2 {
      OverlayLastWins(layers, 2, k);
    } else if k in l1 {
      OverlayLastWins(layers, 1, k);
    } else if k in l0 {
      OverlayLastWins(layers, 0, k);
    }
  }

  /** The props of a facet, layer by layer: a key takes its value from the
      custom content, else the handlers, else the extended entry, else the
      response data, else the agg config. */
  lemma AggPropsPriority(agg: Object, responseAggs: Option<Object>, extended: seq<Object>, customFacets: seq<Value>,
                         onValueChange: Value, sqon: Value, containerRef: Value, k: string)
    requires AggProps(agg, responseAggs, extended, customFacets, onValueChange, sqon, containerRef).Ok?
    ensures var r := AggProps(agg, responseAggs, extended, customFacets, onValueChange, sqon, containerRef).value;
      var l := BaseLayers(agg, responseAggs, FindExtended(extended, Prop(agg, "fieldName")).value,
                          onValueChange, sqon, containerRef);
      var c := Spread(CustomContent(customFacets, Prop(Overlay(l), "fieldName")).value);
      r == Overlay([l[0], l[1], l[2], l[3], c])
  {
    var l := BaseLayers(agg, responseAggs, FindExtended(extended, Prop(agg, "fieldName")).value,
                        onValueChange, sqon, containerRef);
    var c := Spread(CustomContent(customFacets, Prop(Overlay(l), "fieldName")).value);
    assert l + [c] == [l[0], l[1], l[2], l[3], c];
  }

  /** Without custom facets the `key` is the agg config's own `fieldName`,
      whatever the response data or the extended entry hold. */
  lemma KeyIsConfigFieldName(agg: Object, responseAggs: Option<Object>, extended: seq<Object>,
                             onValueChange: Value, sqon: Value, containerRef: Value)
    requires AggProps(agg, responseAggs, extended, [], onValueChange, sqon, containerRef).Ok?
    ensures var r := AggProps(agg, responseAggs, extended, [], onValueChange, sqon, containerRef).value;
      "key" in r && r["key"] == Prop(agg, "fieldName")
  {
    AggPropsPriority(agg, responseAggs, extended, [], onValueChange, sqon, containerRef, "key");
    var l := BaseLayers(agg, responseAggs, FindExtended(extended, Prop(agg, "fieldName")).value,
                        onValueChange, sqon, containerRef);
    var c := Spread(CustomContent([], Prop(Overlay(l), "fieldName")).value);
    FiveLayers(l[0], l[1], l[2], l[3], c, "key");
  }

  /** A matching extended entry's `fieldName`, dotted, replaces the agg
      config's underscored one, and it is by that dotted name that the custom
      content is looked up. */
  lemma ExtendedRenamesField(agg: Object, responseAggs: Option<Object>, extended: seq<Object>,
                             onValueChange: Value, sqon: Value, containerRef: Value)
    requires FindExtended(extended, Prop(agg, "fieldName")).Ok?
    requires FindExtended(extended, Prop(agg, "fieldName")).value.Some?
    ensures var e := FindExtended(extended, Prop(agg, "fieldName")).value.value;
      var l := BaseLayers(agg, responseAggs, Some(e), onValueChange, sqon, containerRef);
      Prop(Overlay(l), "fieldName") == Prop(e, "fieldName")
      && Str(ToGraphQl(Prop(Overlay(l), "fieldName").s)) == Prop(agg, "fieldName")
  {
    var e := FindExtended(extended, Prop(agg, "fieldName")).value.value;
    var l := BaseLayers(agg, responseAggs, Some(e), onValueChange, sqon, containerRef);
    OverlayLastWins(l, 2, "fieldName");
  }

  // ---------------------------------------------------------------------------
  // Custom items

  /** An item of `getCustomItems({aggs})`: its `index` and the component it
      renders. */
  datatype CustomItem<T> = CustomItem(index: int, component: T)

  predicate SortedByIndex<T>(s: seq<CustomItem<T>>)
  {
    forall i, j :: 0 <= i < j < |s| ==> s[i].index <= s[j].index
  }

  /** Inserting `x` before the first item whose index is not smaller, so that
      it precedes the items of equal index that came after it. */
  function Insert<T>(x: CustomItem<T>, s: seq<CustomItem<T>>): (r: seq<CustomItem<T>>)
    ensures |r| == |s| + 1
  {
    if s == [] || x.index <= s[0].index then [x] + s else [s[0]] + Insert(x, s[1..])
  }

  lemma {:induction false} InsertSorted<T>(x: CustomItem<T>, s: seq<CustomItem<T>>)
    requires SortedByIndex(s)
    ensures SortedByIndex(Insert(x, s))
    ensures forall k :: 0 <= k < |Insert(x, s)| ==> Insert(x, s)[k] == x || Insert(x, s)[k] in s
  {
    if s != [] && x.index > s[0].index {
      InsertSorted(x, s[1..]);
      var rest := Insert(x, s[1..]);
      assert forall k :: 0 <= k < |rest| ==> rest[k] == x || rest[k] in s[1..];
      assert forall k :: 0 <= k < |rest| ==> s[0].index <= rest[k].index;
    }
  }

  lemma {:induction false} InsertPermutes<T>(x: CustomItem<T>, s: seq<CustomItem<T>>)
    ensures multiset(Insert(x, s)) == multiset{x} + multiset(s)
  {
    if s != [] && x.index > s[0].index {
      InsertPermutes(x, s[1..]);
      assert s == [s[0]] + s[1..];
    }
  }

  /** `sortBy(items, 'index')`: ascending, a permutation, and (below) stable. */
  function SortByIndex<T>(items: seq<CustomItem<T>>): (r: seq<CustomItem<T>>)
    ensures |r| == |items|
    ensures multiset(r) == multiset(items)
    ensures SortedByIndex(r)
  {
    if items == [] then []
    else
      var rest := SortByIndex(items[1..]);
      InsertSorted(items[0], rest);
      InsertPermutes(items[0], rest);
      assert items == [items[0]] + items[1..];
      Insert(items[0], rest)
  }

  function HasIndex<T>(v: int): CustomItem<T> -> bool
  {
    (c: CustomItem<T>) => c.index == v
  }

  /** Items of one index keep their order through an insertion. */
  lemma {:induction false} InsertKeepsTies<T>(x: CustomItem<T>, s: seq<CustomItem<T>>, v: int)
    requires SortedByIndex(s)
    ensures Filter(Insert(x, s), HasIndex(v)) == if x.index == v then [x] + Filter(s, HasIndex(v)) else Filter(s, HasIndex(v))
  {
    if s == [] || x.index <= s[0].index {
      assert ([x] + s)[1..] == s;
    } else {
      var rest := Insert(x, s[1..]);
      assert ([s[0]] + rest)[1..] == rest;
      InsertKeepsTies(x, s[1..], v);
      if x.index == v {
        assert !HasIndex(v)(s[0]);
      }
    }
  }

  /** The sort is stable: the items of any one index appear in their given
      order. */
  lemma {:induction false} SortIsStable<T>(items: seq<CustomItem<T>>, v: int)
    ensures Filter(SortByIndex(items), HasIndex(v)) == Filter(items, HasIndex(v))
  {
    if items != [] {
      SortIsStable(items[1..], v);
      InsertKeepsTies(items[0], SortByIndex(items[1..]), v);
    }
  }

  /** The position `acc.slice(0, index)` and `acc.slice(index, acc.length)`
      cut at: a negative index counts from the end, and both ends are clamped
      to the list. */
  function SliceIndex(index: int, len: nat): (k: nat)
    ensures k <= len
    ensures 0 <= index <= len ==> k == index
    ensures index > len ==> k == len
    ensures index < 0 ==> k == if len + index < 0 then 0 else len + index
  {
    if index < 0 then (if len + index < 0 then 0 else len + index)
    else if index > len then len
    else index
  }

  /** `[...acc.slice(0, index), component(), ...acc.slice(index, acc.length)]`. */
  function InsertAt<T>(acc: seq<T>, index: int, c: T): (r: seq<T>)
    ensures |r| == |acc| + 1
    ensures r[SliceIndex(index, |acc|)] == c
    ensures r[..SliceIndex(index, |acc|)] + r[SliceIndex(index, |acc|) + 1..] == acc
    ensures IsSubsequence(acc, r)
  {
    var k := SliceIndex(index, |acc|);
    var r := acc[..k] + [c] + acc[k..];
    assert r[..k] == acc[..k];
    assert r[k + 1..] == acc[k..];
    assert acc == acc[..k] + acc[k..];
    SubsequenceInsert(acc[..k], c, acc[k..]);
    r
  }

  /** The reduce over the sorted items, each inserted into the list built so
      far. */
  function InsertAll<T>(acc: seq<T>, items: seq<CustomItem<T>>): (r: seq<T>)
    ensures |r| == |acc| + |items|
    ensures IsSubsequence(acc, r)
    decreases |items|
  {
    if items == [] then
      SubsequenceRefl(acc);
      acc
    else
      var next := InsertAt(acc, items[0].index, items[0].component);
      var r := InsertAll(next, items[1..]);
      SubsequenceTrans(acc, next, r);
      r
  }

  /** `AggregationsListDisplay`: the loader (`None`) while there is no data,
      else the facets with the custom items spliced in by ascending index. */
  function ListDisplay<T>(hasData: bool, instances: seq<T>, customItems: seq<CustomItem<T>>): (r: Option<seq<T>>)
    ensures r.None? <==> !hasData
    ensures r.Some? ==> |r.value| == |instances| + |customItems|
    ensures r.Some? ==> IsSubsequence(instances, r.value)
  {
    if hasData then Some(InsertAll(instances, SortByIndex(customItems))) else None
  }

  /** Insertions at indices above `p` leave position `p` alone. */
  lemma {:induction false} InsertAllKeeps<T>(acc: seq<T>, items: seq<CustomItem<T>>, p: nat)
    requires p < |acc|
    requires forall j :: 0 <= j < |items| ==> items[j].index > p
    ensures InsertAll(acc, items)[p] == acc[p]
    decreases |items|
  {
    if items != [] {
      var next := InsertAt(acc, items[0].index, items[0].component);
      var k := SliceIndex(items[0].index, |acc|);
      assert k > p;
      assert next[..k][p] == next[p];
      assert (next[..k] + next[k + 1..])[p] == acc[p];
      InsertAllKeeps(next, items[1..], p);
    }
  }

  /** With strictly ascending indices, each within the list as built so far,
      every item ends at its own index. */
  lemma {:induction false} InsertAllPlacesItems<T>(acc: seq<T>, items: seq<CustomItem<T>>, j: nat)
    requires j < |items|
    requires forall i :: 0 <= i < |items| ==> 0 <= items[i].index <= |acc| + i
    requires forall i, i' :: 0 <= i < i' < |items| ==> items[i].index < items[i'].index
    ensures InsertAll(acc, items)[items[j].index] == items[j].component
    decreases |items|
  {
    var next := InsertAt(acc, items[0].index, items[0].component);
    var rest := items[1..];
    if j == 0 {
      InsertAllKeeps(next, rest, items[0].index);
    } else {
      forall i | 0 <= i < |rest|
        ensures 0 <= rest[i].index <= |next| + i
      {
        assert rest[i] == items[i + 1];
      }
      assert rest[j - 1] == items[j];
      InsertAllPlacesItems(next, rest, j - 1);
    }
  }

  /** Two items of the same index end up in reverse order: the second is
      inserted in front of the first. */
  lemma TiesEndReversed<T>(a: T, b: T)
    ensures InsertAll([], [CustomItem(0, a), CustomItem(0, b)]) == [b, a]
  {
    var items := [CustomItem(0, a), CustomItem(0, b)];
    assert items[1..] == [CustomItem(0, b)];
    assert [CustomItem(0, b)][1..] == [];
    assert InsertAt([], 0, a) == [a];
    assert InsertAt([a], 0, b) == [b, a];
    assert InsertAll([a], [CustomItem(0, b)]) == InsertAll([b, a], []);
    assert InsertAll([], items) == InsertAll([a], [CustomItem(0, b)]);
  }
}
