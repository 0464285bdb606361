/** The two spellings of a field: the dotted Elasticsearch path (`a.b.c`) and
    the GraphQL-safe name with every dot written as a double underscore
    (`a__b__c`). `serializeToGraphQl`, `serializeToDomId` and `underscoreField`
    write the second from the first; `serializeToPath` goes back. */
module FieldNames {
  import opened Js
  import opened Text

  const Dot: string := "."
  const DoubleUnderscore: string := "__"

  /** `path.split('.').join('__')`. */
  function ToGraphQl(path: string): string
  {
    Join(SplitOn(path, Dot), DoubleUnderscore)
  }

  /** `name.split('__').join('.')`. */
  function ToPath(name: string): string
  {
    Join(SplitOn(name, DoubleUnderscore), Dot)
  }

  /** The split and join replace every dot, left to right, by `__`. */
  lemma ToGraphQlIsReplace(path: string)
    ensures ToGraphQl(path) == Replace(path, Dot, DoubleUnderscore)
  {
    SplitJoinIsReplace(path, Dot, DoubleUnderscore);
  }

  /** The split and join replace every leftmost `__` by a dot. */
  lemma ToPathIsReplace(name: string)
    ensures ToPath(name) == Replace(name, DoubleUnderscore, Dot)
  {
    SplitJoinIsReplace(name, DoubleUnderscore, Dot);
  }

  /** The GraphQL name holds no dot. */
  lemma ToGraphQlHasNoDot(path: string)
    ensures '.' !in ToGraphQl(path)
  {
    SplitPiecesAvoidSeparator(path, '.');
    JoinAvoids(SplitOn(path, Dot), DoubleUnderscore, '.');
  }

  /** A path without underscores survives the trip to a GraphQL name and back. */
  lemma RoundTrip(path: string)
    requires '_' !in path
    ensures ToPath(ToGraphQl(path)) == path
  {
    var pieces := SplitOn(path, Dot);
    SplitPiecesAvoid(path, Dot, '_');
    SplitJoinAvoiding(pieces, DoubleUnderscore);
    JoinSplit(path, Dot);
  }

  /** ... and a name without dots or underscores other than the separators
      survives the trip the other way. */
  lemma RoundTripFromName(pieces: seq<string>)
    requires pieces != []
    requires forall k :: 0 <= k < |pieces| ==> '_' !in pieces[k] && '.' !in pieces[k]
    ensures ToGraphQl(ToPath(Join(pieces, DoubleUnderscore))) == Join(pieces, DoubleUnderscore)
  {
    SplitJoinAvoiding(pieces, DoubleUnderscore);
    SplitJoinAvoiding(pieces, Dot);
  }

  /** An underscore next to a dot is read back as part of a separator:
      `a_.b` becomes `a___b` and then `a._b`. */
  lemma UnderscoreBeforeDotIsLost(a: string, b: string)
    requires a != [] && '_' !in a && '.' !in a && '_' !in b && '.' !in b
    ensures ToPath(ToGraphQl(a + "_" + Dot + b)) == a + Dot + "_" + b != a + "_" + Dot + b
  {
    UnderscoreDotToGraphQl(a, b);
    TripleUnderscoreToPath(a, b);
    assert (a + Dot + "_" + b)[|a|] == '.';
    assert (a + "_" + Dot + b)[|a|] == '_';
  }

  lemma UnderscoreDotToGraphQl(a: string, b: string)
    requires '.' !in a && '.' !in b
    ensures ToGraphQl(a + "_" + Dot + b) == a + "___" + b
  {
    var p := a + "_";
    assert '.' !in p;
    SplitAfterPiece(p, Dot, b);
    SplitSinglePiece(b, Dot);
    JoinTwo(p, b, DoubleUnderscore);
    UnderscoreThenSeparator(a, b);
  }

  lemma UnderscoreThenSeparator(a: string, b: string)
    ensures a + "_" + DoubleUnderscore + b == a + "___" + b
  {
    assert "_" + DoubleUnderscore == "___";
    Assoc(a, "_", DoubleUnderscore);
  }

  lemma TripleUnderscoreToPath(a: string, b: string)
    requires '_' !in a && '_' !in b
    ensures ToPath(a + "___" + b) == a + Dot + "_" + b
  {
    SplitAfterPiece(a, DoubleUnderscore, "_" + b);
    TripleIsSeparatorThenUnderscore(a, b);
    SplitUnderscorePiece(b);
    JoinTwo(a, "_" + b, Dot);
    Assoc(a + Dot, "_", b);
  }

  lemma TripleIsSeparatorThenUnderscore(a: string, b: string)
    ensures a + "___" + b == a + DoubleUnderscore + ("_" + b)
  {
    assert "___" == DoubleUnderscore + "_";
    Assoc(a, "___", b);
    Assoc(a, DoubleUnderscore, "_" + b);
  }

  lemma Assoc(x: string, y: string, z: string)
    ensures x + (y + z) == x + y + z
  {
  }

  lemma SplitUnderscorePiece(b: string)
    requires '_' !in b
    ensures SplitOn("_" + b, DoubleUnderscore) == ["_" + b]
  {
    var x := "_" + b;
    assert x[1..] == b;
    assert !StartsWith(x, DoubleUnderscore) by {
      assert |x| < 2 || x[1] != '_';
    }
    SplitSinglePiece(b, DoubleUnderscore);
  }

  lemma JoinTwo(x: string, y: string, sep: string)
    ensures Join([x, y], sep) == x + sep + y
  {
    assert [x, y][1..] == [y];
  }

  /** `underscoreField`: `null`, `undefined` and `""` give `""`. */
  function UnderscoreField(s: Option<string>): (r: string)
    ensures s.None? || s.value == "" ==> r == ""
    ensures s.Some? ==> r == ToGraphQl(s.value)
  {
    if s.Some? then ToGraphQl(s.value) else ""
  }
}
