/** Walks over an Elasticsearch mapping tree: a node has an optional `type` and,
    when it is an object field, a `properties` object of named children.
    `flattenMapping` lists every node with its dotted path and a type;
    `getNestedFields` lists the dotted paths of the `nested` nodes. */
module Mapping {
  import opened Js
  import opened Text
  import opened Seqs

  /** A mapping node. `hasProperties` says whether the node's `properties` value
      is truthy (any object, even an empty one); `properties` lists its entries
      in key order and is not read when `hasProperties` is false. Other
      attributes of a node are not modelled. */
  datatype Node = Node(typ: Option<string>, hasProperties: bool, properties: seq<Field>)

  /** One entry `[key, node]` of a `properties` object. */
  datatype Field = Field(key: string, node: Node)

  /** One record of the flattened mapping. */
  datatype MappingField = MappingField(field: string, typ: string)

  /** `joinWith()(parent)`: the parent path and a dot, or nothing at the top. */
  function JoinWith(parent: string): (r: string)
    ensures parent == "" ==> r == ""
    ensures parent != "" ==> r == parent + "."
  {
    if parent != "" then parent + "." else ""
  }

  /** The dotted path of the child `key` under `parent`. */
  function FullPath(parent: string, key: string): string
  {
    JoinWith(parent) + key
  }

  /** The record type of a node: its declared type, or a default for an
      undeclared or empty one. */
  function RecordType(n: Node): (t: string)
    ensures t != ""
  {
    if n.hasProperties then OrElse(n.typ, "object") else OrElse(n.typ, "unknown")
  }

  /** `flattenMapping(properties, parent)`. */
  function FlattenFields(fs: seq<Field>, parent: string): seq<MappingField>
    decreases fs
  {
    if fs == [] then [] else FlattenField(fs[0], parent) + FlattenFields(fs[1..], parent)
  }

  /** The records contributed by one entry: its own, then its subtree's. */
  function FlattenField(f: Field, parent: string): seq<MappingField>
    decreases f
  {
    var path := FullPath(parent, f.key);
    if f.node.hasProperties then
      [MappingField(path, RecordType(f.node))] + FlattenFields(f.node.properties, path)
    else
      [MappingField(path, RecordType(f.node))]
  }

  /** `flattenMapping(properties)`: the walk from the top, with no parent path. */
  function FlattenMapping(properties: seq<Field>): seq<MappingField>
  {
    FlattenFields(properties, "")
  }

  /** The number of nodes of a forest, counting through `properties` only where
      the walk descends. */
  function Count(fs: seq<Field>): nat
    decreases fs
  {
    if fs == [] then 0 else CountField(fs[0]) + Count(fs[1..])
  }

  function CountField(f: Field): nat
    decreases f
  {
    if f.node.hasProperties then 1 + Count(f.node.properties) else 1
  }

  /** The flattened list has exactly one record per node, at every depth. */
  lemma {:induction false} FlattenCount(fs: seq<Field>, parent: string)
    ensures |FlattenFields(fs, parent)| == Count(fs)
    decreases fs
  {
    if fs != [] {
      FlattenFieldCount(fs[0], parent);
      FlattenCount(fs[1..], parent);
    }
  }

  lemma {:induction false} FlattenFieldCount(f: Field, parent: string)
    ensures |FlattenField(f, parent)| == CountField(f)
    decreases f
  {
    if f.node.hasProperties {
      FlattenCount(f.node.properties, FullPath(parent, f.key));
    }
  }

  /** Flattening distributes over the concatenation of sibling lists. */
  lemma {:induction false} FlattenAppend(a: seq<Field>, b: seq<Field>, parent: string)
    ensures FlattenFields(a + b, parent) == FlattenFields(a, parent) + FlattenFields(b, parent)
    decreases |a|
  {
    if a == [] {
      assert a + b == b;
    } else {
      assert (a + b)[0] == a[0];
      assert (a + b)[1..] == a[1..] + b;
      FlattenAppend(a[1..], b, parent);
    }
  }

  lemma CountAppend(a: seq<Field>, b: seq<Field>)
    ensures Count(a + b) == Count(a) + Count(b)
    decreases |a|
  {
    if a == [] {
      assert a + b == b;
    } else {
      assert (a + b)[0] == a[0];
      assert (a + b)[1..] == a[1..] + b;
      CountAppend(a[1..], b);
    }
  }

  /** Pre-order layout: the records of the `i`-th entry form one block that
      starts after the records of the entries before it; the block begins with
      the entry's own record, and the rest are the records of its subtree. */
  lemma FlattenLayout(fs: seq<Field>, parent: string, i: nat)
    requires i < |fs|
    ensures var o := Count(fs[..i]);
      var r := FlattenFields(fs, parent);
      o + CountField(fs[i]) <= |r| && r[o..o + CountField(fs[i])] == FlattenField(fs[i], parent)
  {
    FlattenSplitAt(fs, parent, i);
    FlattenCount(fs[..i], parent);
    FlattenFieldCount(fs[i], parent);
    MiddleSlice(FlattenFields(fs[..i], parent), FlattenField(fs[i], parent), FlattenFields(fs[i + 1..], parent));
  }

  lemma FlattenSplitAt(fs: seq<Field>, parent: string, i: nat)
    requires i < |fs|
    ensures FlattenFields(fs, parent)
      == FlattenFields(fs[..i], parent) + (FlattenField(fs[i], parent) + FlattenFields(fs[i + 1..], parent))
  {
    SplitAt(fs, i);
    FlattenAppend(fs[..i], [fs[i]] + fs[i + 1..], parent);
    FlattenCons(fs[i], fs[i + 1..], parent);
  }

  lemma FlattenCons(f: Field, fs: seq<Field>, parent: string)
    ensures FlattenFields([f] + fs, parent) == FlattenField(f, parent) + FlattenFields(fs, parent)
  {
    assert ([f] + fs)[1..] == fs;
  }

  /** The block of an entry: its own record first, with its dotted path and its
      type rule. */
  lemma FlattenFieldHead(f: Field, parent: string)
    ensures |FlattenField(f, parent)| >= 1
    ensures FlattenField(f, parent)[0] == MappingField(FullPath(parent, f.key), RecordType(f.node))
    ensures !f.node.typ.Some? || f.node.typ.value == "" ==>
      FlattenField(f, parent)[0].typ == (if f.node.hasProperties then "object" else "unknown")
    ensures f.node.typ.Some? && f.node.typ.value != "" ==> FlattenField(f, parent)[0].typ == f.node.typ.value
  {
  }

  /** Every record of a walk below `parent` has a path that starts with the
      parent path and a dot. */
  lemma {:induction false} FlattenPathPrefix(fs: seq<Field>, parent: string, k: nat)
    requires k < |FlattenFields(fs, parent)|
    ensures StartsWith(FlattenFields(fs, parent)[k].field, JoinWith(parent))
    decreases fs, 1
  {
    var a := FlattenField(fs[0], parent);
    var b := FlattenFields(fs[1..], parent);
    IndexAppend(a, b, k);
    if k < |a| {
      FlattenFieldPathPrefix(fs[0], parent, k);
    } else {
      FlattenPathPrefix(fs[1..], parent, k - |a|);
    }
  }

  lemma {:induction false} FlattenFieldPathPrefix(f: Field, parent: string, k: nat)
    requires k < |FlattenField(f, parent)|
    ensures StartsWith(FlattenField(f, parent)[k].field, JoinWith(parent))
    decreases f, 0
  {
    var path := FullPath(parent, f.key);
    if k == 0 {
      PrefixOfPath(parent, f.key);
    } else {
      IndexAppend([MappingField(path, RecordType(f.node))], FlattenFields(f.node.properties, path), k);
      FlattenPathPrefix(f.node.properties, path, k - 1);
      ChildPrefix(parent, f.key, FlattenFields(f.node.properties, path)[k - 1].field);
    }
  }

  lemma PrefixOfPath(parent: string, key: string)
    ensures StartsWith(FullPath(parent, key), JoinWith(parent))
  {
    assert FullPath(parent, key)[..|JoinWith(parent)|] == JoinWith(parent);
  }

  /** A path below a child is below the child's parent. */
  lemma ChildPrefix(parent: string, key: string, s: string)
    requires StartsWith(s, JoinWith(FullPath(parent, key)))
    ensures StartsWith(s, JoinWith(parent))
  {
    var path := FullPath(parent, key);
    PrefixOfPath(parent, key);
    if path != "" {
      assert s[..|JoinWith(parent)|] == path[..|JoinWith(parent)|];
    }
  }

  /** `getNestedFields(properties, parent)`: each entry contributes its path when
      its type is `nested` (an empty path is dropped by `filter(Boolean)`), then
      the nested paths below it. */
  function NestedFields(fs: seq<Field>, parent: string): seq<string>
    decreases fs
  {
    if fs == [] then [] else NestedField(fs[0], parent) + NestedFields(fs[1..], parent)
  }

  function NestedField(f: Field, parent: string): seq<string>
    decreases f
  {
    var path := FullPath(parent, f.key);
    var own := if f.node.typ == Some("nested") && path != "" then [path] else [];
    if f.node.hasProperties then own + NestedFields(f.node.properties, path) else own
  }

  /** `getNestedFields(mapping)`: an undefined mapping contributes nothing. */
  function GetNestedFields(mapping: Option<seq<Field>>): (r: seq<string>)
    ensures mapping.None? ==> r == []
  {
    if mapping.Some? then NestedFields(mapping.value, "") else []
  }

  /** The non-empty paths of the `nested` records of a flattened list. */
  function NestedPaths(rs: seq<MappingField>): seq<string>
  {
    if rs == [] then []
    else (if rs[0].typ == "nested" && rs[0].field != "" then [rs[0].field] else []) + NestedPaths(rs[1..])
  }

  lemma {:induction false} NestedPathsAppend(a: seq<MappingField>, b: seq<MappingField>)
    ensures NestedPaths(a + b) == NestedPaths(a) + NestedPaths(b)
    decreases |a|
  {
    if a == [] {
      assert a + b == b;
    } else {
      assert (a + b)[0] == a[0];
      assert (a + b)[1..] == a[1..] + b;
      NestedPathsAppend(a[1..], b);
    }
  }

  /** `getNestedFields` lists exactly the paths of the records `flattenMapping`
      types as `nested`, in the same (pre-)order: a record is typed `nested` iff
      its node declares that type, since both defaults differ from it. */
  lemma {:induction false} NestedAreFlattenedNested(fs: seq<Field>, parent: string)
    ensures NestedFields(fs, parent) == NestedPaths(FlattenFields(fs, parent))
    decreases fs, 1
  {
    if fs != [] {
      NestedFieldIsFlattenedNested(fs[0], parent);
      NestedAreFlattenedNested(fs[1..], parent);
      NestedPathsAppend(FlattenField(fs[0], parent), FlattenFields(fs[1..], parent));
    }
  }

  lemma {:induction false} NestedFieldIsFlattenedNested(f: Field, parent: string)
    ensures NestedField(f, parent) == NestedPaths(FlattenField(f, parent))
    decreases f, 0
  {
    var path := FullPath(parent, f.key);
    var head := [MappingField(path, RecordType(f.node))];
    RecordTypeNested(f.node);
    if f.node.hasProperties {
      NestedAreFlattenedNested(f.node.properties, path);
      NestedPathsAppend(head, FlattenFields(f.node.properties, path));
    }
    assert head[1..] == [];
  }

  lemma RecordTypeNested(n: Node)
    ensures RecordType(n) == "nested" <==> n.typ == Some("nested")
  {
  }

  /** A `nested` node with a non-empty path is listed, at any depth: the path of
      the `i`-th entry is in the list when that entry is typed `nested`. */
  lemma NestedEntryListed(fs: seq<Field>, parent: string, i: nat)
    requires i < |fs| && fs[i].node.typ == Some("nested") && FullPath(parent, fs[i].key) != ""
    ensures FullPath(parent, fs[i].key) in NestedFields(fs, parent)
  {
    assert fs == fs[..i] + fs[i..];
    NestedAppend(fs[..i], fs[i..], parent);
    assert fs[i..][0] == fs[i] && fs[i..][1..] == fs[i + 1..];
    assert NestedField(fs[i], parent)[0] == FullPath(parent, fs[i].key);
  }

  lemma {:induction false} NestedAppend(a: seq<Field>, b: seq<Field>, parent: string)
    ensures NestedFields(a + b, parent) == NestedFields(a, parent) + NestedFields(b, parent)
    decreases |a|
  {
    if a == [] {
      assert a + b == b;
    } else {
      assert (a + b)[0] == a[0];
      assert (a + b)[1..] == a[1..] + b;
      NestedAppend(a[1..], b, parent);
    }
  }
}
