/** The facet view of the advanced facet panel: the DOM id a facet is scrolled
    to, the facets shown for a display tree, the ancestor paths and the
    breadcrumbs of a facet, and the grid classes of a keyword facet's buckets. */
module FacetView {
  import opened Js
  import opened Text
  import opened Seqs
  import opened FieldNames

  // ---------------------------------------------------------------------------
  // DOM ids

  /** `serializeToDomId(path)`: the same split and join as the GraphQL name, so
      the id holds no dot and the CSS selector `#id` is a single id. */
  function SerializeToDomId(path: string): (r: string)
    ensures r == ToGraphQl(path)
    ensures r == Replace(path, Dot, DoubleUnderscore)
    ensures '.' !in r
  {
    ToGraphQlIsReplace(path);
    ToGraphQlHasNoDot(path);
    Join(SplitOn(path, Dot), DoubleUnderscore)
  }

  // ---------------------------------------------------------------------------
  // The display tree

  /** A node of the display tree: one without `children`, or one with a
      `children` array, which is truthy even when empty. */
  datatype DisplayNode =
    | Leaf(path: string)
    | Branch(path: string, children: seq<DisplayNode>)

  predicate IsLeaf(n: DisplayNode)
  {
    n.Leaf?
  }

  /** `flattenDisplayTreeData(nodes)`: the reduce, from the left, appending
      each node's part. */
  function Flatten(ns: seq<DisplayNode>): (r: seq<DisplayNode>)
    ensures forall k :: 0 <= k < |r| ==> IsLeaf(r[k])
    decreases ns, 1
  {
    if ns == [] then [] else Flatten(ns[..|ns| - 1]) + Part(ns[|ns| - 1])
  }

  /** What one node adds: its flattened `children` when it has them, else
      the node itself. */
  function Part(n: DisplayNode): (r: seq<DisplayNode>)
    ensures forall k :: 0 <= k < |r| ==> IsLeaf(r[k])
    decreases n, 0
  {
    if n.Branch? then Flatten(n.children) else [n]
  }

  /** Every node of the forest, in left-to-right depth-first order. */
  function PreOrder(ns: seq<DisplayNode>): seq<DisplayNode>
    decreases ns
  {
    if ns == [] then []
    else
      [ns[0]] + (if ns[0].Branch? then PreOrder(ns[0].children) else []) + PreOrder(ns[1..])
  }

  /** The reduce read from the front: the first node's part, then the rest. */
  lemma {:induction false} FlattenCons(x: DisplayNode, rest: seq<DisplayNode>)
    ensures Flatten([x] + rest) == Part(x) + Flatten(rest)
    decreases |rest|
  {
    var ns := [x] + rest;
    if rest == [] {
      assert ns[..|ns| - 1] == [];
    } else {
      var init := rest[..|rest| - 1];
      var y := rest[|rest| - 1];
      assert ns[..|ns| - 1] == [x] + init;
      assert ns[|ns| - 1] == y;
      assert rest[..|rest| - 1] == init;
      FlattenCons(x, init);
    }
  }

  /** The flattened list holds exactly the nodes without `children`, in
      depth-first order: a node with an empty `children` array is dropped. */
  lemma {:induction false} FlattenIsLeavesInPreOrder(ns: seq<DisplayNode>)
    ensures Flatten(ns) == Filter(PreOrder(ns), IsLeaf)
    decreases ns
  {
    if ns != [] {
      var x := ns[0];
      var rest := ns[1..];
      assert ns == [x] + rest;
      FlattenCons(x, rest);
      var sub := if x.Branch? then PreOrder(x.children) else [];
      FilterAppend([x] + sub, PreOrder(rest), IsLeaf);
      FilterAppend([x], sub, IsLeaf);
      FlattenIsLeavesInPreOrder(rest);
      if x.Branch? {
        FlattenIsLeavesInPreOrder(x.children);
      }
    }
  }

  // ---------------------------------------------------------------------------
  // Ancestor paths and breadcrumbs

  /** The reduce over the first `n` segments: entry `i` joins the segments
      before `i` and the segment `i` itself. */
  function Ancestors(segs: seq<string>, n: nat): (r: seq<string>)
    requires n <= |segs|
    ensures |r| == n
    ensures forall i :: 0 <= i < n ==> r[i] == Join(segs[..i + 1], Dot)
  {
    if n == 0 then []
    else
      assert segs[..n - 1] + [segs[n - 1]] == segs[..n];
      Ancestors(segs, n - 1) + [Join(segs[..n - 1] + [segs[n - 1]], Dot)]
  }

  /** The `paths` of a facet: one entry per segment of its path. */
  function AncestorPaths(path: string): (r: seq<string>)
    ensures |r| == |SplitOn(path, Dot)|
  {
    var segs := SplitOn(path, Dot);
    Ancestors(segs, |segs|)
  }

  /** The last ancestor path is the path itself. */
  lemma LastAncestorIsPath(path: string)
    ensures var r := AncestorPaths(path); r[|r| - 1] == path
  {
    var segs := SplitOn(path, Dot);
    assert segs[..|segs|] == segs;
    JoinSplit(path, Dot);
  }

  /** A join cut after its `k`-th piece. */
  lemma {:induction false} JoinCut(xs: seq<string>, k: nat, sep: string)
    requires 0 < k < |xs|
    ensures Join(xs, sep) == Join(xs[..k], sep) + sep + Join(xs[k..], sep)
    decreases k
  {
    assert xs == [xs[0]] + xs[1..];
    JoinCons(xs[0], xs[1..], sep);
    if k == 1 {
      assert xs[..1] == [xs[0]];
    } else {
      JoinCut(xs[1..], k - 1, sep);
      assert xs[1..][..k - 1] == xs[1..k];
      assert xs[1..][k - 1..] == xs[k..];
      assert xs[..k] == [xs[0]] + xs[1..k];
      JoinCons(xs[0], xs[1..k], sep);
    }
  }

  /** Every proper ancestor path is the facet's path cut just before one of its
      dots. */
  lemma AncestorIsDottedPrefix(path: string, i: nat)
    requires i + 1 < |SplitOn(path, Dot)|
    ensures var segs := SplitOn(path, Dot);
      path == AncestorPaths(path)[i] + Dot + Join(segs[i + 1..], Dot)
  {
    var segs := SplitOn(path, Dot);
    JoinSplit(path, Dot);
    JoinCut(segs, i + 1, Dot);
  }

  /** Ancestor path `i` splits back into the first `i + 1` segments. */
  lemma AncestorSegments(path: string, i: nat)
    requires i < |SplitOn(path, Dot)|
    ensures SplitOn(AncestorPaths(path)[i], Dot) == SplitOn(path, Dot)[..i + 1]
  {
    var segs := SplitOn(path, Dot);
    SplitPiecesAvoidSeparator(path, '.');
    assert Dot == ['.'];
    SplitJoinAvoiding(segs[..i + 1], Dot);
  }

  /** `extendedMapping.find(({field}) => field === path)?.displayName`. */
  function DisplayNameOf(extendedMapping: seq<Object>, path: string): (r: Value)
    ensures (forall j :: 0 <= j < |extendedMapping| ==> Prop(extendedMapping[j], "field") != Str(path)) ==> r == Undefined
  {
    var entry := Find(extendedMapping, (e: Object) => Prop(e, "field") == Str(path));
    if entry.None? then Undefined else Prop(entry.value, "displayName")
  }

  /** `pathDisplayNames.slice(0, -1)`: the display names of every proper
      ancestor, the facet's own name left out. */
  function Breadcrumbs(extendedMapping: seq<Object>, path: string): (r: seq<Value>)
    ensures |r| == |SplitOn(path, Dot)| - 1
    ensures forall i :: 0 <= i < |r| ==> r[i] == DisplayNameOf(extendedMapping, AncestorPaths(path)[i])
  {
    var paths := AncestorPaths(path);
    var names := seq(|paths|, i requires 0 <= i < |paths| => DisplayNameOf(extendedMapping, paths[i]));
    names[..|names| - 1]
  }

  /** A top-level facet has no breadcrumbs. */
  lemma TopLevelHasNoBreadcrumbs(extendedMapping: seq<Object>, path: string)
    requires '.' !in path
    ensures Breadcrumbs(extendedMapping, path) == []
  {
    SplitSinglePiece(path, Dot);
  }

  // ---------------------------------------------------------------------------
  // The keyword grid

  const Columns: nat := 4
  /** `maxTerms`: two rows of the grid. */
  const MaxTerms: nat := Columns * 2

  /** `Math.floor(i / columns) === Math.floor((showingBuckets.length - 1) / columns)`;
      with no bucket showing, the right side is -1 and no bucket is on the last row. */
  predicate InLastRow(i: nat, showing: nat)
  {
    i / Columns == (showing as int - 1) / Columns
  }

  predicate OnlyRow(showing: nat)
  {
    showing <= Columns
  }

  function RowClass(i: nat): string
  {
    "row_" + NatToString(i / Columns)
  }

  function ColClass(i: nat): string
  {
    "col_" + NatToString(i % Columns)
  }

  function LastRowClass(i: nat, showing: nat): string
  {
    if InLastRow(i, showing) then "last_row" else ""
  }

  function OnlyRowClass(showing: nat): string
  {
    if OnlyRow(showing) then "only_row" else ""
  }

  /** `constructBucketItemClassName({showingBuckets, i})`: split at its spaces,
      the class text is the row, the column, and the two flags, each flag empty
      when it does not apply. */
  function BucketItemClassName(i: nat, showing: nat): (r: string)
    ensures SplitOn(r, " ") == [RowClass(i), ColClass(i), LastRowClass(i, showing), OnlyRowClass(showing)]
  {
    var a := RowClass(i);
    var b := ColClass(i);
    var c := LastRowClass(i, showing);
    var d := OnlyRowClass(showing);
    TokensHaveNoSpace(i, showing);
    ClassTokens(a, b, c, d);
    a + " " + b + " " + c + " " + d
  }

  /** No class token holds a space. */
  lemma TokensHaveNoSpace(i: nat, showing: nat)
    ensures ' ' !in RowClass(i) && ' ' !in ColClass(i)
    ensures ' ' !in LastRowClass(i, showing) && ' ' !in OnlyRowClass(showing)
  {
    var r := NatToString(i / Columns);
    var c := NatToString(i % Columns);
    assert forall k :: 0 <= k < |RowClass(i)| ==> RowClass(i)[k] == if k < 4 then "row_"[k] else r[k - 4];
    assert forall k :: 0 <= k < |ColClass(i)| ==> ColClass(i)[k] == if k < 4 then "col_"[k] else c[k - 4];
  }

  lemma ClassTokens(a: string, b: string, c: string, d: string)
    requires ' ' !in a && ' ' !in b && ' ' !in c && ' ' !in d
    ensures SplitOn(a + " " + b + " " + c + " " + d, " ") == [a, b, c, d]
  {
    assert a + " " + b + " " + c + " " + d == a + " " + (b + " " + (c + " " + d));
    SplitAfterPiece(a, " ", b + " " + (c + " " + d));
    SplitAfterPiece(b, " ", c + " " + d);
    SplitAfterPiece(c, " ", d);
    SplitSinglePiece(d, " ");
  }

  /** The `last_row` class is set exactly when the bucket's row is the row of
      the last showing bucket. */
  lemma LastRowIff(i: nat, showing: nat)
    ensures "last_row" in SplitOn(BucketItemClassName(i, showing), " ") <==> InLastRow(i, showing)
  {
    assert RowClass(i)[0] == 'r' && ColClass(i)[0] == 'c';
  }

  /** The `only_row` class is set exactly when at most one row of buckets shows. */
  lemma OnlyRowIff(i: nat, showing: nat)
    ensures "only_row" in SplitOn(BucketItemClassName(i, showing), " ") <==> showing <= Columns
  {
    assert RowClass(i)[0] == 'r' && ColClass(i)[0] == 'c';
  }

  /** When a single row shows, each of its buckets is also on the last row. */
  lemma OnlyRowIsLastRow(i: nat, showing: nat)
    requires i < showing <= Columns
    ensures InLastRow(i, showing)
  {
  }

  /** Within `maxTerms` buckets the grid has two rows, and the bucket's row and
      column give back its index. */
  lemma GridPosition(i: nat)
    requires i < MaxTerms
    ensures i / Columns < 2 && i % Columns < Columns
    ensures i == Columns * (i / Columns) + i % Columns
  {
  }
}
