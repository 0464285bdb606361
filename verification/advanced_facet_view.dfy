/** The advanced facet view's lookups: the mapping node at a dotted path, read
    through direct keys and `properties` objects, and the DOM id of a filter. */
module AdvancedFacetView {
  import opened Js
  import opened Text
  import opened FieldNames

  const EmptyObject: Value := Obj(map[])

  /** One step of the reduce: the child `seg` of `node` when it is truthy,
      otherwise the child in the node's truthy `properties`, otherwise `{}`.
      Reading a key of `undefined` or `null` throws. */
  function Step(node: Value, seg: string): (r: Result<Value>)
    ensures Nullish(node) <==> r.Err?
    ensures node.Obj? && Truthy(Prop(node.fields, seg)) ==> r == Ok(node.fields[seg])
    ensures node.Obj? && !Truthy(Prop(node.fields, seg)) && !Truthy(Prop(node.fields, "properties"))
      ==> r == Ok(EmptyObject)
  {
    match Get(node, seg)
    case Err(e) => Err(e)
    case Ok(direct) =>
      if Truthy(direct) then Ok(direct)
      else match Get(node, "properties")
        case Err(e) => Err(e)
        case Ok(props) =>
          if Truthy(props) then Get(props, seg) else Ok(EmptyObject)
  }

  /** The reduce over the segments, from the given node. */
  function Walk(node: Value, segs: seq<string>): Result<Value>
    decreases segs
  {
    if segs == [] then Ok(node)
    else match Step(node, segs[0])
      case Err(e) => Err(e)
      case Ok(next) => Walk(next, segs[1..])
  }

  /** `|| {}` on the reduced value. */
  function OrEmptyObject(v: Value): (r: Value)
    ensures Truthy(r)
    ensures Truthy(v) ==> r == v
  {
    if Truthy(v) then v else EmptyObject
  }

  function FieldMappingFromSegments(mapping: Value, segs: seq<string>): Result<Value>
  {
    match Walk(mapping, segs)
    case Err(e) => Err(e)
    case Ok(v) => Ok(OrEmptyObject(v))
  }

  /** `fieldMappingFromPath(path)` over `elasticMapping`. */
  function FieldMappingFromPath(mapping: Value, path: string): Result<Value>
  {
    FieldMappingFromSegments(mapping, SplitOn(path, Dot))
  }

  /** A path without dots is a single segment. */
  lemma SingleSegment(a: string)
    requires '.' !in a
    ensures SplitOn(a, Dot) == [a]
  {
    SplitSinglePiece(a, Dot);
  }

  /** `a.b` splits into its two segments. */
  lemma TwoSegments(a: string, b: string)
    requires '.' !in a && '.' !in b
    ensures SplitOn(a + Dot + b, Dot) == [a, b]
  {
    SplitAfterPiece(a, Dot, b);
    SplitSinglePiece(b, Dot);
  }

  /** `a.b.c` splits into its three segments. */
  lemma ThreeSegments(a: string, b: string, c: string)
    requires '.' !in a && '.' !in b && '.' !in c
    ensures SplitOn(a + Dot + b + Dot + c, Dot) == [a, b, c]
  {
    TwoSegments(b, c);
    assert a + Dot + b + Dot + c == a + Dot + (b + Dot + c);
    SplitAfterPiece(a, Dot, b + Dot + c);
  }

  /** A one-segment path whose key is truthy on the mapping gives that child. */
  lemma OneSegmentDirect(m: map<string, Value>, a: string)
    requires '.' !in a && Truthy(Prop(m, a))
    ensures FieldMappingFromPath(Obj(m), a) == Ok(m[a])
  {
    SingleSegment(a);
    assert [a][1..] == [];
    assert Walk(Obj(m), [a]) == Walk(m[a], []);
  }

  /** A one-segment path that the mapping has neither as a key nor under
      `properties` gives `{}`. */
  lemma OneSegmentMissing(m: map<string, Value>, a: string)
    requires '.' !in a && !Truthy(Prop(m, a)) && !Truthy(Prop(m, "properties"))
    ensures FieldMappingFromPath(Obj(m), a) == Ok(EmptyObject)
  {
    SingleSegment(a);
    assert [a][1..] == [];
    assert Walk(Obj(m), [a]) == Walk(EmptyObject, []);
  }

  /** `a.b` where `a`'s node has no truthy key `b` but its `properties` hold a
      truthy `b`: the result is `mapping.a.properties.b`. */
  lemma TwoSegmentsThroughProperties(m: map<string, Value>, a: string, b: string,
                                     node: map<string, Value>, props: map<string, Value>)
    requires '.' !in a && '.' !in b
    requires Prop(m, a) == Obj(node) && !Truthy(Prop(node, b))
    requires Prop(node, "properties") == Obj(props) && Truthy(Prop(props, b))
    ensures FieldMappingFromPath(Obj(m), a + Dot + b) == Ok(props[b])
  {
    TwoSegments(a, b);
    assert [a, b][1..] == [b];
    assert [b][1..] == [];
    assert Step(Obj(node), b) == Ok(props[b]);
    assert Walk(Obj(node), [b]) == Walk(props[b], []);
    assert Walk(Obj(m), [a, b]) == Walk(Obj(node), [b]);
  }

  /** As written, a path whose middle segment is missing from a truthy
      `properties` object throws: the step yields `undefined`, and the next
      step reads a key of it. */
  lemma MissingMiddleThrows(a: string, b: string, c: string)
    requires '.' !in a && '.' !in b && '.' !in c && a != "properties" && b != "properties"
    ensures var m := map[a := Obj(map["properties" := EmptyObject])];
      FieldMappingFromPath(Obj(m), a + Dot + b + Dot + c).Err?
  {
    ThreeSegments(a, b, c);
    var m := map[a := Obj(map["properties" := EmptyObject])];
    var n := Obj(map["properties" := EmptyObject]);
    assert Step(Obj(m), a) == Ok(n);
    assert Step(n, b) == Ok(Undefined);
    assert [a, b, c][1..] == [b, c];
    assert [b, c][1..] == [c];
    assert Walk(Undefined, [c]).Err?;
    assert Walk(n, [b, c]) == Walk(Undefined, [c]);
    assert Walk(Obj(m), [a, b, c]) == Walk(n, [b, c]);
  }

  /** The evidently intended lookup: a missing node anywhere on the path gives
      `{}` instead of throwing, as `parentNode?.[nextPath]` would. */
  function SafeStep(node: Value, seg: string): Value
  {
    if Nullish(node) then Undefined else Step(node, seg).value
  }

  function SafeWalk(node: Value, segs: seq<string>): Value
    decreases segs
  {
    if segs == [] then node else SafeWalk(SafeStep(node, segs[0]), segs[1..])
  }

  /** The corrected `fieldMappingFromPath`: always a truthy value. */
  function SafeFieldMappingFromPath(mapping: Value, path: string): (r: Value)
    ensures Truthy(r)
  {
    OrEmptyObject(SafeWalk(mapping, SplitOn(path, Dot)))
  }

  /** The corrected walk agrees with the original wherever the original does
      not throw. */
  lemma {:induction false} SafeWalkAgrees(node: Value, segs: seq<string>)
    requires Walk(node, segs).Ok?
    ensures SafeWalk(node, segs) == Walk(node, segs).value
    decreases segs
  {
    if segs != [] {
      SafeWalkAgrees(Step(node, segs[0]).value, segs[1..]);
    }
  }

  lemma SafeAgrees(mapping: Value, path: string)
    requires FieldMappingFromPath(mapping, path).Ok?
    ensures SafeFieldMappingFromPath(mapping, path) == FieldMappingFromPath(mapping, path).value
  {
    SafeWalkAgrees(mapping, SplitOn(path, Dot));
  }

  /** On the input that makes the original throw, the corrected lookup gives `{}`. */
  lemma SafeMissingMiddle(a: string, b: string, c: string)
    requires '.' !in a && '.' !in b && '.' !in c && a != "properties" && b != "properties"
    ensures var m := map[a := Obj(map["properties" := EmptyObject])];
      SafeFieldMappingFromPath(Obj(m), a + Dot + b + Dot + c) == EmptyObject
  {
    ThreeSegments(a, b, c);
    var m := map[a := Obj(map["properties" := EmptyObject])];
    var n := Obj(map["properties" := EmptyObject]);
    assert SafeStep(Obj(m), a) == n;
    assert SafeStep(n, b) == Undefined;
    assert [a, b, c][1..] == [b, c];
    assert [b, c][1..] == [c];
    assert [c][1..] == [];
    assert SafeWalk(Undefined, [c]) == SafeWalk(Undefined, []) == Undefined;
    assert SafeWalk(n, [b, c]) == SafeWalk(Undefined, [c]);
    assert SafeWalk(Obj(m), [a, b, c]) == SafeWalk(n, [b, c]);
  }

  const FilterIdSeparator: string := "---"

  /** `constructFilterId({fieldName, value})`. */
  function ConstructFilterId(fieldName: string, value: Value): (r: string)
    ensures StartsWith(r, fieldName)
    ensures r == fieldName <==> !Truthy(value)
    ensures Truthy(value) ==> r[|fieldName|..] == FilterIdSeparator + ToText(value)
  {
    if Truthy(value) then
      var r := fieldName + (FilterIdSeparator + ToText(value));
      assert |r| > |fieldName|;
      assert r[..|fieldName|] == fieldName;
      r
    else fieldName
  }
}
