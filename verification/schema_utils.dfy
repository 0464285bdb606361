/** The SDL text helpers of the schema builder package: cleaning the `#graphql`
    marker, combining, generating, validating, scanning declared names and
    de-duplicating type definitions. */
module SchemaUtils {
  import opened Js
  import opened Text
  import opened Seqs

  /** The comment that tags a template literal as GraphQL. */
  const Marker: string := "#graphql"

  /** `s.replace(/^#graphql\s*\/, '')`: the marker and the whitespace after it go
      only when the text begins with the marker. */
  function StripMarker(s: string): string
  {
    if StartsWith(s, Marker) then TrimStart(s[|Marker|..]) else s
  }

  /** `cleanTypeDef` of the builder and the per-fragment cleaning of
      `combineTypeDefs` and `validateTypeDef`: strip a leading marker, then trim.
      The result never starts or ends with whitespace. */
  function CleanTypeDef(s: string): (r: string)
    ensures IsTrimmed(r)
  {
    var stripped := StripMarker(s);
    TrimIsTrimmed(stripped);
    Trim(stripped)
  }

  /** The two cases of cleaning: a leading marker goes together with the
      whitespace after it, and the rest is trimmed; unmarked text is only
      trimmed. */
  lemma CleanTypeDefCases(s: string)
    ensures StartsWith(s, Marker) ==> CleanTypeDef(s) == Trim(s[|Marker|..])
    ensures !StartsWith(s, Marker) ==> CleanTypeDef(s) == Trim(s)
  {
    if StartsWith(s, Marker) {
      TrimStartIdempotent(s[|Marker|..]);
    }
  }

  lemma TrimStartIdempotent(s: string)
    ensures TrimStart(TrimStart(s)) == TrimStart(s)
  {
    var t := TrimStart(s);
    assert t[0..] == t;
  }

  /** Cleaning a marked text: the marker and the whitespace after it go, the
      rest is trimmed. */
  lemma CleanMarkedText(w: string, t: string)
    requires AllSpace(w)
    ensures CleanTypeDef(Marker + w + t) == Trim(t)
  {
    var r := Marker + w + t;
    assert StartsWith(r, Marker) by {
      assert r[..|Marker|] == Marker;
    }
    assert r[|Marker|..] == w + t;
    CleanTypeDefCases(r);
    TrimStartSpacePrefix(w, t);
    TrimStartIdempotent(t);
  }

  /** Trimmed text that does not begin with the marker is left as it is. */
  lemma CleanUnmarkedTrimmed(t: string)
    requires IsTrimmed(t) && !StartsWith(t, Marker)
    ensures CleanTypeDef(t) == t
  {
    CleanTypeDefCases(t);
    TrimOfTrimmed(t);
  }

  /** A marker that does not open the text is kept: only the surrounding
      whitespace goes. */
  lemma MarkerOnlyAtStart(w: string, t: string)
    requires w != [] && AllSpace(w)
    ensures CleanTypeDef(w + Marker + t) == Trim(Marker + t)
  {
    SpaceStartNotMarked(w + Marker + t);
    assert w + Marker + t == w + (Marker + t);
    PaddedUnmarked(w, Marker + t);
  }

  lemma PaddedUnmarked(w: string, t: string)
    requires w != [] && AllSpace(w) && !StartsWith(w + t, Marker)
    ensures CleanTypeDef(w + t) == Trim(t)
  {
    CleanTypeDefCases(w + t);
    TrimStartSpacePrefix(w, t);
    TrimStartIdempotent(t);
  }

  /** Cleaning is not idempotent: only one leading marker is removed per call,
      so a doubly marked text needs two cleanings. */
  lemma CleanRemovesOneMarker(d: string)
    requires d != [] && IsTrimmed(d)
    ensures var t := Marker + " " + d; CleanTypeDef(Marker + " " + t) == t && CleanTypeDef(t) == d
  {
    var t := Marker + " " + d;
    CleanMarkedText(" ", t);
    MarkedTextTrimmed(d);
    TrimOfTrimmed(t);
    CleanMarkedText(" ", d);
    TrimOfTrimmed(d);
  }

  lemma MarkedTextTrimmed(d: string)
    requires d != [] && IsTrimmed(d)
    ensures IsTrimmed(Marker + " " + d)
  {
    var t := Marker + " " + d;
    assert t[0] == Marker[0];
    assert t[|t| - 1] == d[|d| - 1];
  }

  /** The arguments `combineTypeDefs` keeps: the truthy (non-empty) ones, cleaned. */
  function CleanedSections(defs: seq<string>): (r: seq<string>)
    ensures forall k :: 0 <= k < |r| ==> IsTrimmed(r[k])
    ensures |r| <= |defs|
  {
    if defs == [] then []
    else if defs[0] == "" then CleanedSections(defs[1..])
    else [CleanTypeDef(defs[0])] + CleanedSections(defs[1..])
  }

  /** `combineTypeDefs(...defs)`: drop empty arguments, clean the rest, join them
      with a blank line. */
  function CombineTypeDefs(defs: seq<string>): (r: string)
    ensures CleanedSections(defs) == [] ==> r == ""
    ensures |CleanedSections(defs)| == 1 ==> r == CleanedSections(defs)[0]
  {
    Join(CleanedSections(defs), BlockSep)
  }

  /** The sections can be recovered from the combined text by splitting on blank
      lines, as long as no section holds a blank line itself. */
  lemma CombineTypeDefsSplits(defs: seq<string>)
    requires CleanedSections(defs) != []
    requires forall k :: 0 <= k < |CleanedSections(defs)| ==> !Contains(CleanedSections(defs)[k], BlockSep)
    ensures SplitOn(CombineTypeDefs(defs), BlockSep) == CleanedSections(defs)
  {
    SplitJoinTrimmedBlocks(CleanedSections(defs));
  }

  /** Trimmed sections without a blank line inside come back out of the joined text. */
  lemma SplitJoinTrimmedBlocks(sections: seq<string>)
    requires forall k :: 0 <= k < |sections| ==> IsTrimmed(sections[k])
    ensures sections != [] && (forall k :: 0 <= k < |sections| ==> !Contains(sections[k], BlockSep))
            ==> SplitOn(Join(sections, BlockSep), BlockSep) == sections
  {
    if sections != [] && (forall k :: 0 <= k < |sections| ==> !Contains(sections[k], BlockSep)) {
      forall k | 0 <= k < |sections| ensures IsBlock(sections[k]) {
        TrimmedIsBlock(sections[k]);
      }
      SplitJoinBlocks(sections);
    }
  }

  lemma CleanedSectionsKeep(d: string, rest: seq<string>)
    requires d != ""
    ensures CleanedSections([d] + rest) == [CleanTypeDef(d)] + CleanedSections(rest)
  {
    assert ([d] + rest)[1..] == rest;
  }

  lemma CleanedSectionsDrop(rest: seq<string>)
    ensures CleanedSections([""] + rest) == CleanedSections(rest)
  {
    assert ([""] + rest)[1..] == rest;
  }

  lemma CleanedSectionsOfOne(z: string)
    requires z != ""
    ensures CleanedSections([z]) == [CleanTypeDef(z)]
  {
    CleanedSectionsKeep(z, []);
    assert [z] == [z] + [];
  }

  lemma CleanedSectionsOfThree(x: string, y: string, z: string)
    requires x != "" && y != "" && z != ""
    ensures CleanedSections([x, y, z]) == [CleanTypeDef(x), CleanTypeDef(y), CleanTypeDef(z)]
  {
    CleanedSectionsOfOne(z);
    CleanedSectionsKeep(y, [z]);
    CleanedSectionsKeep(x, [y] + [z]);
    ThreeElements(x, y, z);
    ThreeElements(CleanTypeDef(x), CleanTypeDef(y), CleanTypeDef(z));
  }

  lemma ThreeElements<T>(x: T, y: T, z: T)
    ensures [x] + ([y] + [z]) == [x, y, z]
  {
  }

  /** Emptiness is decided before cleaning: an argument made only of the marker
      and whitespace still yields an (empty) section, so two blank lines
      separate its neighbours. */
  lemma CombineKeepsMarkerOnlySection(a: string, w: string, b: string)
    requires a != [] && IsTrimmed(a) && !StartsWith(a, Marker)
    requires AllSpace(w)
    requires b != [] && IsTrimmed(b) && !StartsWith(b, Marker)
    ensures CombineTypeDefs([a, Marker + w, b]) == a + BlockSep + BlockSep + b
  {
    CleanMarkedBlank(w);
    CleanUnmarkedTrimmed(a);
    CleanUnmarkedTrimmed(b);
    MarkerNonEmpty(w);
    CleanedSectionsOfThree(a, Marker + w, b);
    CombineWithEmptyMiddle(a, b, [a, Marker + w, b]);
  }

  lemma MarkedNonEmpty(w: string, a: string)
    ensures Marker + w + a != ""
  {
    assert |Marker + w + a| >= |Marker|;
  }

  lemma MarkerNonEmpty(w: string)
    ensures Marker + w != ""
  {
    assert |Marker + w| >= |Marker|;
  }

  lemma CombineWithEmptyMiddle(a: string, b: string, defs: seq<string>)
    requires CleanedSections(defs) == [a, "", b]
    ensures CombineTypeDefs(defs) == a + BlockSep + BlockSep + b
  {
    JoinThree(a, "", b, BlockSep);
    assert a + BlockSep + "" == a + BlockSep;
  }

  lemma JoinThree(x: string, y: string, z: string, sep: string)
    ensures Join([x, y, z], sep) == x + sep + y + sep + z
  {
    var xs := [x, y, z];
    assert xs[1..] == [y, z];
    assert [y, z][1..] == [z];
    assert Join([z], sep) == z;
    assert Join([y, z], sep) == y + sep + z;
  }

  lemma JoinTwo(x: string, y: string, sep: string)
    ensures Join([x, y], sep) == x + sep + y
  {
    assert [x, y][1..] == [y];
    assert Join([y], sep) == y;
  }

  /** Unit-test shape: the marker (and the whitespace after it) before the first
      argument goes and the empty argument disappears. */
  lemma CombineExample(w: string, a: string, b: string)
    requires AllSpace(w)
    requires a != [] && IsTrimmed(a)
    requires b != [] && IsTrimmed(b) && !StartsWith(b, Marker)
    ensures CombineTypeDefs([Marker + w + a, "", b]) == a + BlockSep + b
  {
    CleanMarkedTrimmed(w, a);
    CleanUnmarkedTrimmed(b);
    MarkedNonEmpty(w, a);
    CleanedSectionsSkipMiddle(Marker + w + a, b);
    CombineOfTwo(a, b, [Marker + w + a, "", b]);
  }

  lemma CleanMarkedTrimmed(w: string, t: string)
    requires AllSpace(w) && IsTrimmed(t)
    ensures CleanTypeDef(Marker + w + t) == t
  {
    CleanMarkedText(w, t);
    TrimOfTrimmed(t);
  }

  lemma CleanedSectionsSkipMiddle(x: string, z: string)
    requires x != "" && z != ""
    ensures CleanedSections([x, "", z]) == [CleanTypeDef(x), CleanTypeDef(z)]
  {
    CleanedSectionsOfOne(z);
    CleanedSectionsDrop([z]);
    assert ["", z] == [""] + [z];
    CleanedSectionsKeep(x, ["", z]);
    assert [x, "", z] == [x] + ["", z];
  }

  lemma CombineOfTwo(a: string, b: string, defs: seq<string>)
    requires CleanedSections(defs) == [a, b]
    ensures CombineTypeDefs(defs) == a + BlockSep + b
  {
    JoinTwo(a, b, BlockSep);
  }

  /** The declaration `createEnum` writes between the marker line and the
      closing whitespace: one value per line. */
  function EnumDecl(name: string, values: seq<string>): (r: string)
    ensures r != [] && r[0] == 'e' && r[|r| - 1] == '}'
    ensures Contains(r, "enum " + name)
    ensures forall k :: 0 <= k < |values| ==> Contains(r, values[k])
  {
    var body := Join(values, "\n\t\t\t");
    var head := "enum " + name + " {\n\t\t\t";
    var r := head + body + "\n\t\t}";
    assert r[..|"enum " + name|] == "enum " + name;
    forall k | 0 <= k < |values| ensures Contains(r, values[k]) {
      JoinContainsElement(values, "\n\t\t\t", k);
      var j := ContainsWitness(body, values[k]);
      assert r[|head| + j..|head| + j + |values[k]|] == body[j..j + |values[k]|];
      ContainsAt(r, values[k], |head| + j);
    }
    r
  }

  /** `createEnum(name, values)`, whitespace as in the template literal. */
  function CreateEnum(name: string, values: seq<string>): (r: string)
    ensures StartsWith(r, Marker)
    ensures Contains(r, EnumDecl(name, values))
  {
    var r := Marker + "\n\t\t" + EnumDecl(name, values) + "\n\t";
    assert r[..|Marker|] == Marker;
    ContainsAt(r, EnumDecl(name, values), |Marker + "\n\t\t"|);
    r
  }

  /** The declaration `createUnion` writes: the member types separated by `|`. */
  function UnionDecl(name: string, types: seq<string>): (r: string)
    ensures r != [] && r[0] == 'u'
    ensures StartsWith(r, "union " + name + " = ")
  {
    var r := "union " + name + " = " + Join(types, " | ");
    assert r[..|"union " + name + " = "|] == "union " + name + " = ";
    r
  }

  /** The member types can be read back off the declaration, in the given order:
      after `union Name = ` the text splits on ` | ` into exactly `types`, as long
      as no type name holds a space. */
  lemma UnionMembers(name: string, types: seq<string>)
    requires types != []
    requires forall k :: 0 <= k < |types| ==> ' ' !in types[k]
    ensures |"union " + name + " = "| <= |UnionDecl(name, types)|
    ensures SplitOn(UnionDecl(name, types)[|"union " + name + " = "|..], " | ") == types
  {
    var head := "union " + name + " = ";
    assert UnionDecl(name, types)[|head|..] == Join(types, " | ");
    SplitJoinAvoiding(types, " | ");
  }

  /** `createUnion(name, types)`, whitespace as in the template literal. */
  function CreateUnion(name: string, types: seq<string>): (r: string)
    ensures StartsWith(r, Marker)
    ensures Contains(r, UnionDecl(name, types))
  {
    var r := Marker + "\n\t\t" + UnionDecl(name, types) + "\n\t";
    assert r[..|Marker|] == Marker;
    ContainsAt(r, UnionDecl(name, types), |Marker + "\n\t\t"|);
    r
  }

  /** What the builder stores for a generated union: the declaration itself, the
      types in the given order, with trailing whitespace removed. */
  lemma CleanCreateUnion(name: string, types: seq<string>)
    ensures CleanTypeDef(CreateUnion(name, types)) == TrimEnd(UnionDecl(name, types))
  {
    CleanMarkedDecl(UnionDecl(name, types), "\n\t\t", "\n\t");
  }

  /** Cleaning a marked template whose declaration starts with a non-space
      character yields the declaration without its trailing whitespace. */
  lemma CleanMarkedDecl(decl: string, pre: string, post: string)
    requires decl != [] && !IsSpace(decl[0])
    requires AllSpace(pre) && AllSpace(post)
    ensures CleanTypeDef(Marker + pre + decl + post) == TrimEnd(decl)
  {
    assert Marker + pre + decl + post == Marker + pre + (decl + post);
    CleanMarkedText(pre, decl + post);
    TrimDeclThenSpace(decl, post);
  }

  lemma TrimDeclThenSpace(decl: string, post: string)
    requires decl != [] && !IsSpace(decl[0]) && AllSpace(post)
    ensures Trim(decl + post) == TrimEnd(decl)
  {
    assert (decl + post)[0] == decl[0];
    assert TrimStart(decl + post) == decl + post;
    TrimEndSpaceSuffix(decl, post);
  }

  /** What the builder stores for a generated enum: the declaration from `enum`
      to the closing brace. */
  lemma CleanCreateEnum(name: string, values: seq<string>)
    ensures CleanTypeDef(CreateEnum(name, values)) == EnumDecl(name, values)
  {
    CleanMarkedDecl(EnumDecl(name, values), "\n\t\t", "\n\t");
    TrimEndOfNonSpaceEnd(EnumDecl(name, values));
  }

  lemma TrimEndOfNonSpaceEnd(s: string)
    requires s != [] && !IsSpace(s[|s| - 1])
    ensures TrimEnd(s) == s
  {
  }

  /** The text a template-literal value contributes: `values[i] || ''`. */
  function TemplateValueText(values: seq<Value>, i: nat): string
  {
    if i < |values| && Truthy(values[i]) then ToText(values[i]) else ""
  }

  /** The reduce of `gql`: the first `n` literal parts, each followed by its value. */
  function Interleave(parts: seq<string>, values: seq<Value>, n: nat): string
    requires n <= |parts|
  {
    if n == 0 then "" else Interleave(parts, values, n - 1) + parts[n - 1] + TemplateValueText(values, n - 1)
  }

  /** The tagged template `gql`. */
  function Gql(parts: seq<string>, values: seq<Value>): (r: string)
    ensures StartsWith(r, Marker + "\n")
    ensures r[|Marker + "\n"|..] == Interleave(parts, values, |parts|)
  {
    Marker + "\n" + Interleave(parts, values, |parts|)
  }

  /** Falsy or missing values contribute nothing: with no truthy value the result
      is the literal parts concatenated. */
  lemma {:induction false} GqlWithoutValues(parts: seq<string>, values: seq<Value>, n: nat)
    requires n <= |parts|
    requires forall i :: 0 <= i < |values| ==> !Truthy(values[i])
    ensures Interleave(parts, values, n) == Join(parts[..n], "")
  {
    if n > 0 {
      GqlWithoutValues(parts, values, n - 1);
      if n == 1 {
        assert parts[..1] == [parts[0]];
      } else {
        JoinAppend(parts[..n - 1], parts[n - 1], "");
        assert parts[..n - 1] + [parts[n - 1]] == parts[..n];
      }
    }
  }

  /** `gql` output is what cleaning expects: cleaning removes exactly the marker
      `gql` adds and trims the interpolated text. */
  lemma CleanGql(parts: seq<string>, values: seq<Value>)
    ensures CleanTypeDef(Gql(parts, values)) == Trim(Interleave(parts, values, |parts|))
  {
    CleanMarkedText("\n", Interleave(parts, values, |parts|));
  }

  /** The keywords `validateTypeDef` looks for. */
  const ValidationKeywords: seq<string> := ["type", "input", "enum", "interface", "union", "scalar", "directive", "schema"]

  /** `keywords.some(keyword => s.includes(keyword))`. */
  function ContainsAny(s: string, keywords: seq<string>): (r: bool)
    ensures r <==> exists k :: 0 <= k < |keywords| && Contains(s, keywords[k])
  {
    if keywords == [] then false
    else
      var rest := ContainsAny(s, keywords[1..]);
      assert forall k :: 1 <= k < |keywords| ==> keywords[k] == keywords[1..][k - 1];
      Contains(s, keywords[0]) || rest
  }

  /** `validateTypeDef`: the cleaned text mentions one of the eight keywords
      anywhere, even inside a longer word. */
  function ValidateTypeDef(typeDef: string): (r: bool)
    ensures r <==> exists k :: 0 <= k < |ValidationKeywords| && Contains(CleanTypeDef(typeDef), ValidationKeywords[k])
  {
    ContainsAny(CleanTypeDef(typeDef), ValidationKeywords)
  }

  /** Text that begins with whitespace does not begin with the marker. */
  lemma SpaceStartNotMarked(s: string)
    requires s != [] && IsSpace(s[0])
    ensures !StartsWith(s, Marker)
  {
    if |Marker| <= |s| {
      assert s[0] == s[..|Marker|][0];
      assert !IsSpace(Marker[0]);
    }
  }

  lemma CleanMarkedBlank(w: string)
    requires AllSpace(w)
    ensures CleanTypeDef(Marker + w) == ""
  {
    CleanMarkedText(w, "");
    assert Marker + w + "" == Marker + w;
  }

  lemma CleanUnmarkedBlank(w: string)
    requires AllSpace(w) && !StartsWith(w, Marker)
    ensures CleanTypeDef(w) == ""
  {
    CleanTypeDefCases(w);
    TrimStartSpacePrefix(w, "");
    assert w + "" == w;
  }

  /** Blank text, marked or not, cleans to nothing. */
  lemma CleanBlank(w: string)
    requires AllSpace(w)
    ensures CleanTypeDef(w) == ""
    ensures CleanTypeDef(Marker + w) == ""
  {
    CleanMarkedBlank(w);
    if w != [] {
      SpaceStartNotMarked(w);
    }
    CleanUnmarkedBlank(w);
  }

  /** Blank text, marked or not, is rejected. */
  lemma ValidateRejectsBlank(w: string)
    requires AllSpace(w)
    ensures !ValidateTypeDef(w)
    ensures !ValidateTypeDef(Marker + w)
  {
    CleanBlank(w);
    EmptyHasNoKeyword();
  }

  lemma EmptyHasNoKeyword()
    ensures !ContainsAny("", ValidationKeywords)
  {
    NothingInEmpty(ValidationKeywords);
  }

  lemma NothingInEmpty(keywords: seq<string>)
    requires forall k :: 0 <= k < |keywords| ==> keywords[k] != ""
    ensures !ContainsAny("", keywords)
  {
  }

  /** A declaration opening with `type` is accepted. */
  lemma ValidateAcceptsType(t: string)
    requires IsTrimmed(t) && StartsWith(t, "type")
    ensures ValidateTypeDef(t)
  {
    assert CleanTypeDef(t) == t by {
      assert !StartsWith(t, Marker) by { assert t[0] == t[..4][0]; }
      CleanUnmarkedTrimmed(t);
    }
    assert Contains(t, ValidationKeywords[0]);
  }

  // ---------------------------------------------------------------------------
  // extractTypeNames: the global regular expression
  //   /(?:type|input|enum|interface|union|scalar)\s+(\w+)/g
  // At a position the alternatives are tried in order, each followed by `\s+`
  // and `(\w+)`; both runs are greedy, and since no whitespace character is a
  // word character the name always starts where the whitespace run ends.

  const NameKeywords: seq<string> := ["type", "input", "enum", "interface", "union", "scalar"]

  /** The expression can match at `p` through the alternative `kw`: `kw` opens
      `s` at `p`, then comes a non-empty run of whitespace ending at `w`, where
      a word character begins the captured name. */
  predicate DeclStart(s: string, p: nat, kw: string, w: nat)
  {
    p + |kw| < w < |s| && s[p..p + |kw|] == kw
    && AllSpace(s[p + |kw|..w]) && IsWordChar(s[w])
  }

  /** End of the run of characters satisfying `p` that starts at `q`. */
  function RunEnd(s: string, q: nat, p: char -> bool): (r: nat)
    requires q <= |s|
    ensures q <= r <= |s|
    ensures forall i :: q <= i < r ==> p(s[i])
    ensures r == |s| || !p(s[r])
    decreases |s| - q
  {
    if q < |s| && p(s[q]) then RunEnd(s, q + 1, p) else q
  }

  predicate IsWord(w: string)
  {
    w != [] && forall i :: 0 <= i < |w| ==> IsWordChar(w[i])
  }

  /** One match of the expression: the captured name and where the match ends. */
  datatype Match = Match(name: string, end: nat)

  /** Whitespace is never a word character. */
  lemma SpaceIsNotWord(c: char)
    requires IsSpace(c)
    ensures !IsWordChar(c)
  {
  }

  /** Where the expression can match through `kw`, the whitespace run after
      `kw` ends exactly at the start of the name. */
  lemma DeclStartRun(s: string, p: nat, kw: string, w: nat)
    requires DeclStart(s, p, kw, w)
    ensures RunEnd(s, p + |kw|, IsSpace) == w
  {
    var q := p + |kw|;
    forall i | q <= i < w
      ensures IsSpace(s[i])
    {
      assert s[q..w][i - q] == s[i];
    }
    if IsSpace(s[w]) {
      SpaceIsNotWord(s[w]);
    }
    RunEndAt(s, q, w, IsSpace);
  }

  /** The match at `p` when the alternatives `keywords` are tried in order: the
      first one that is followed by whitespace and a word, with the longest word
      as the captured name. */
  function MatchWith(s: string, p: nat, keywords: seq<string>): (r: Option<Match>)
    requires p <= |s|
    ensures r.Some? ==> p < r.value.end <= |s| && IsWord(r.value.name)
                          && (r.value.end == |s| || !IsWordChar(s[r.value.end]))
    decreases |keywords|
  {
    if keywords == [] then None
    else
      var kw := keywords[0];
      var q := p + |kw|;
      if q <= |s| && s[p..q] == kw then
        var w := RunEnd(s, q, IsSpace);
        if w == q || w == |s| || !IsWordChar(s[w]) then MatchWith(s, p, keywords[1..])
        else
          var e := RunEnd(s, w, IsWordChar);
          Some(Match(s[w..e], e))
      else MatchWith(s, p, keywords[1..])
  }

  /** What the match through `keywords` is: it exists exactly when some
      alternative is followed by whitespace and a word, and its name is the
      word after that whitespace. */
  lemma MatchWithSpec(s: string, p: nat, keywords: seq<string>)
    requires p <= |s|
    ensures var r := MatchWith(s, p, keywords);
      r.Some? ==> exists kw: string, w: nat :: kw in keywords && DeclStart(s, p, kw, w)
                    && w < r.value.end && r.value.name == s[w..r.value.end]
    ensures MatchWith(s, p, keywords).None? <==> forall kw: string, w: nat :: kw in keywords ==> !DeclStart(s, p, kw, w)
  {
    MatchWithSome(s, p, keywords);
    MatchWithNone(s, p, keywords);
  }

  lemma {:induction false} MatchWithSome(s: string, p: nat, keywords: seq<string>)
    requires p <= |s|
    ensures var r := MatchWith(s, p, keywords);
      r.Some? ==> exists kw: string, w: nat :: kw in keywords && DeclStart(s, p, kw, w)
                    && w < r.value.end && r.value.name == s[w..r.value.end]
    decreases |keywords|
  {
    if keywords != [] {
      var kw := keywords[0];
      var q := p + |kw|;
      MatchWithSome(s, p, keywords[1..]);
      assert forall k :: k in keywords <==> k == kw || k in keywords[1..];
      if q <= |s| && s[p..q] == kw {
        var w := RunEnd(s, q, IsSpace);
        if w == q || w == |s| || !IsWordChar(s[w]) {
          MatchWithNoWord(s, p, keywords);
        } else {
          MatchWithWord(s, p, keywords);
        }
      } else {
        MatchWithNotOpen(s, p, keywords);
      }
    }
  }

  lemma {:induction false} MatchWithNone(s: string, p: nat, keywords: seq<string>)
    requires p <= |s|
    ensures MatchWith(s, p, keywords).None? <==> forall kw: string, w: nat :: kw in keywords ==> !DeclStart(s, p, kw, w)
    decreases |keywords|
  {
    if keywords != [] {
      var kw := keywords[0];
      var q := p + |kw|;
      MatchWithNone(s, p, keywords[1..]);
      assert forall k :: k in keywords <==> k == kw || k in keywords[1..];
      if q <= |s| && s[p..q] == kw {
        var w := RunEnd(s, q, IsSpace);
        if w == q || w == |s| || !IsWordChar(s[w]) {
          MatchWithNoWord(s, p, keywords);
        } else {
          MatchWithWord(s, p, keywords);
        }
      } else {
        MatchWithNotOpen(s, p, keywords);
      }
    }
  }

  /** When the whitespace run after `kw` is empty or is not followed by a word
      character, the alternative `kw` cannot match. */
  lemma NoDeclStartThrough(s: string, p: nat, kw: string)
    requires p + |kw| <= |s|
    requires var q := p + |kw|; var w := RunEnd(s, q, IsSpace); w == q || w == |s| || !IsWordChar(s[w])
    ensures forall w: nat :: !DeclStart(s, p, kw, w)
  {
    forall w: nat | DeclStart(s, p, kw, w)
      ensures false
    {
      DeclStartRun(s, p, kw, w);
    }
  }

  /** The match of the expression that starts exactly at `p`, if any. */
  function MatchAt(s: string, p: nat): (r: Option<Match>)
    requires p <= |s|
    ensures r.Some? ==> p < r.value.end <= |s| && IsWord(r.value.name)
                          && (r.value.end == |s| || !IsWordChar(s[r.value.end]))
  {
    MatchWith(s, p, NameKeywords)
  }

  /** A match starts at `p` exactly when one of the keywords opens the text
      there and is followed by at least one whitespace character and a word
      character; the captured name is the word that follows the whitespace. */
  lemma MatchAtSpec(s: string, p: nat)
    requires p <= |s|
    ensures var r := MatchAt(s, p);
      r.Some? ==> exists kw: string, w: nat :: kw in NameKeywords && DeclStart(s, p, kw, w)
                    && w < r.value.end && r.value.name == s[w..r.value.end]
    ensures MatchAt(s, p).None? <==> forall kw: string, w: nat :: kw in NameKeywords ==> !DeclStart(s, p, kw, w)
  {
    MatchWithSpec(s, p, NameKeywords);
  }

  /** The search of `regex.exec` for the alternatives `keywords`, from
      `lastIndex == from` on: the leftmost match, or `null` when no position
      from there on starts one. */
  function ExecWith(s: string, from: nat, keywords: seq<string>): (r: Option<Match>)
    requires from <= |s|
    ensures r.Some? ==> from < r.value.end <= |s| && IsWord(r.value.name)
    decreases |s| - from
  {
    if from == |s| then None
    else
      match MatchWith(s, from, keywords)
      case Some(m) => Some(m)
      case None => ExecWith(s, from + 1, keywords)
  }

  /** `typeRegex.exec(s)` with `lastIndex == from`. */
  function Exec(s: string, from: nat): (r: Option<Match>)
    requires from <= |s|
    ensures r.Some? ==> from < r.value.end <= |s| && IsWord(r.value.name)
  {
    ExecWith(s, from, NameKeywords)
  }

  /** No position in `[a, b)` starts a match. */
  predicate NoMatchBetween(s: string, a: nat, b: nat)
    requires b <= |s|
  {
    forall q :: a <= q < b ==> MatchAt(s, q).None?
  }

  /** No position in `[a, b)` starts a match of the alternatives `keywords`. */
  predicate NoMatchWithBetween(s: string, a: nat, b: nat, keywords: seq<string>)
    requires b <= |s|
  {
    forall q :: a <= q < b ==> MatchWith(s, q, keywords).None?
  }

  lemma NoMatchBetweenIsWith(s: string, a: nat, b: nat)
    requires b <= |s|
    ensures NoMatchBetween(s, a, b) <==> NoMatchWithBetween(s, a, b, NameKeywords)
  {
    forall q | a <= q < b
      ensures MatchAt(s, q) == MatchWith(s, q, NameKeywords)
    {
    }
  }

  lemma {:induction false} ExecWithIsLeftmost(s: string, from: nat, q: nat, keywords: seq<string>)
    requires from <= q < |s| && NoMatchWithBetween(s, from, q, keywords) && MatchWith(s, q, keywords).Some?
    ensures ExecWith(s, from, keywords) == MatchWith(s, q, keywords)
    decreases q - from
  {
    if from < q {
      ExecWithIsLeftmost(s, from + 1, q, keywords);
    }
  }

  lemma {:induction false} ExecWithNoneIff(s: string, from: nat, keywords: seq<string>)
    requires from <= |s|
    ensures ExecWith(s, from, keywords).None? <==> NoMatchWithBetween(s, from, |s|, keywords)
    decreases |s| - from
  {
    if from < |s| {
      ExecWithNoneIff(s, from + 1, keywords);
      if MatchWith(s, from, keywords).None? {
        assert ExecWith(s, from, keywords) == ExecWith(s, from + 1, keywords);
        assert NoMatchWithBetween(s, from, |s|, keywords) <==> NoMatchWithBetween(s, from + 1, |s|, keywords);
      } else {
        assert ExecWith(s, from, keywords).Some?;
      }
    }
  }

  lemma {:induction false} ExecWithSkips(s: string, q: nat, b: nat, keywords: seq<string>)
    requires q <= b <= |s| && NoMatchWithBetween(s, q, b, keywords)
    ensures ExecWith(s, q, keywords) == ExecWith(s, b, keywords)
    decreases b - q
  {
    if q < b {
      ExecWithSkips(s, q + 1, b, keywords);
    }
  }

  /** `exec` finds the leftmost match: the one starting at the first position
      from `from` on where the expression matches. */
  lemma ExecIsLeftmost(s: string, from: nat, q: nat)
    requires from <= q < |s| && NoMatchBetween(s, from, q) && MatchAt(s, q).Some?
    ensures Exec(s, from) == MatchAt(s, q)
  {
    NoMatchBetweenIsWith(s, from, q);
    ExecWithIsLeftmost(s, from, q, NameKeywords);
  }

  /** `exec` returns `null` exactly when no position from `from` on starts a
      match. */
  lemma ExecNoneIff(s: string, from: nat)
    requires from <= |s|
    ensures Exec(s, from).None? <==> NoMatchBetween(s, from, |s|)
  {
    NoMatchBetweenIsWith(s, from, |s|);
    ExecWithNoneIff(s, from, NameKeywords);
  }

  /** A match at `from` is what `exec` returns. */
  lemma ExecAtMatch(s: string, from: nat)
    requires from < |s| && MatchAt(s, from).Some?
    ensures Exec(s, from) == MatchAt(s, from)
  {
    ExecWithAtMatch(s, from, NameKeywords);
  }

  lemma ExecWithAtMatch(s: string, from: nat, keywords: seq<string>)
    requires from < |s| && MatchWith(s, from, keywords).Some?
    ensures ExecWith(s, from, keywords) == MatchWith(s, from, keywords)
  {
  }

  /** The names captured by repeated `exec` calls starting at `from`. */
  function NamesFrom(s: string, from: nat): (r: seq<string>)
    requires from <= |s|
    ensures forall k :: 0 <= k < |r| ==> IsWord(r[k])
    decreases |s| - from
  {
    match Exec(s, from)
    case None => []
    case Some(m) => [m.name] + NamesFrom(s, m.end)
  }

  /** The specification of `extractTypeNames`. */
  function TypeNames(typeDef: string): seq<string>
  {
    NamesFrom(StripMarker(typeDef), 0)
  }

  /** `extractTypeNames`: the loop over `exec` that collects every captured name. */
  method ExtractTypeNames(typeDef: string) returns (matches: seq<string>)
    ensures matches == TypeNames(typeDef)
    ensures forall k :: 0 <= k < |matches| ==> IsWord(matches[k])
  {
    var cleaned := StripMarker(typeDef);
    var lastIndex := 0;
    matches := [];
    var match_ := Exec(cleaned, lastIndex);
    while match_.Some?
      invariant lastIndex <= |cleaned|
      invariant match_ == Exec(cleaned, lastIndex)
      invariant matches + NamesFrom(cleaned, lastIndex) == NamesFrom(cleaned, 0)
      decreases |cleaned| - lastIndex
    {
      matches := matches + [match_.value.name];
      lastIndex := match_.value.end;
      match_ := Exec(cleaned, lastIndex);
    }
    assert NamesFrom(cleaned, lastIndex) == [];
  }

  // ---------------------------------------------------------------------------
  // Which names are extracted

  /** Two different keywords differ at their first or third letter (only
      `input` and `interface` share a first letter), so at most one of them
      opens the text at any position. */
  lemma KeywordsDiffer(a: string, b: string)
    requires a in NameKeywords && b in NameKeywords && a != b
    ensures a[0] != b[0] || a[2] != b[2]
  {
  }

  /** Through whichever keyword opens a declaration, the match at its start
      captures the word after the whitespace. */
  lemma MatchOfDeclStart(s: string, p: nat, kw: string, w: nat)
    requires kw in NameKeywords && DeclStart(s, p, kw, w)
    ensures MatchAt(s, p) == Some(Match(s[w..RunEnd(s, w, IsWordChar)], RunEnd(s, w, IsWordChar)))
  {
    KeywordShape(kw);
    forall k | 0 <= k < |NameKeywords| && NameKeywords[k] != kw
      ensures |NameKeywords[k]| >= 3 && (NameKeywords[k][0] != kw[0] || NameKeywords[k][2] != kw[2])
    {
      KeywordShape(NameKeywords[k]);
      KeywordsDiffer(NameKeywords[k], kw);
    }
    MatchWithFinds(s, p, kw, w, NameKeywords);
  }

  /** Every alternative other than `kw` differs from it at the first or the
      third letter. */
  predicate Distinguishable(kw: string, keywords: seq<string>)
  {
    |kw| >= 3 && forall k :: 0 <= k < |keywords| ==>
      (keywords[k] == kw || (|keywords[k]| >= 3 && (keywords[k][0] != kw[0] || keywords[k][2] != kw[2])))
  }

  lemma {:induction false} MatchWithFinds(s: string, p: nat, kw: string, w: nat, keywords: seq<string>)
    requires DeclStart(s, p, kw, w) && kw in keywords && Distinguishable(kw, keywords)
    ensures MatchWith(s, p, keywords) == Some(Match(s[w..RunEnd(s, w, IsWordChar)], RunEnd(s, w, IsWordChar)))
    decreases |keywords|
  {
    var k0 := keywords[0];
    if k0 == kw {
      DeclStartRun(s, p, kw, w);
    } else {
      assert s[p..p + |kw|][0] == s[p];
      assert s[p..p + |kw|][2] == s[p + 2];
      if p + |k0| <= |s| {
        assert s[p..p + |k0|][0] == s[p];
        assert s[p..p + |k0|][2] == s[p + 2];
      }
      MatchWithSkipsFirst(s, p, keywords);
      assert kw in keywords[1..];
      assert forall k :: 0 <= k < |keywords[1..]| ==> keywords[1..][k] == keywords[k + 1];
      MatchWithFinds(s, p, kw, w, keywords[1..]);
    }
  }

  /** An alternative that does not open the text at `p` cannot match there and
      is passed over. */
  lemma MatchWithNotOpen(s: string, p: nat, keywords: seq<string>)
    requires keywords != [] && p <= |s|
    requires !(p + |keywords[0]| <= |s| && s[p..p + |keywords[0]|] == keywords[0])
    ensures forall w: nat :: !DeclStart(s, p, keywords[0], w)
    ensures MatchWith(s, p, keywords) == MatchWith(s, p, keywords[1..])
  {
    MatchWithSkipsFirst(s, p, keywords);
  }

  /** An alternative that opens the text at `p` but is not followed by
      whitespace and a word cannot match there and is passed over. */
  lemma MatchWithNoWord(s: string, p: nat, keywords: seq<string>)
    requires keywords != [] && p + |keywords[0]| <= |s| && s[p..p + |keywords[0]|] == keywords[0]
    requires var q := p + |keywords[0]|; var w := RunEnd(s, q, IsSpace); w == q || w == |s| || !IsWordChar(s[w])
    ensures forall w: nat :: !DeclStart(s, p, keywords[0], w)
    ensures MatchWith(s, p, keywords) == MatchWith(s, p, keywords[1..])
  {
    NoDeclStartThrough(s, p, keywords[0]);
  }

  /** An alternative followed by whitespace and a word gives the match. */
  lemma MatchWithWord(s: string, p: nat, keywords: seq<string>)
    requires keywords != [] && p + |keywords[0]| <= |s| && s[p..p + |keywords[0]|] == keywords[0]
    requires var q := p + |keywords[0]|; var w := RunEnd(s, q, IsSpace); !(w == q || w == |s| || !IsWordChar(s[w]))
    ensures var w := RunEnd(s, p + |keywords[0]|, IsSpace);
      DeclStart(s, p, keywords[0], w)
      && MatchWith(s, p, keywords) == Some(Match(s[w..RunEnd(s, w, IsWordChar)], RunEnd(s, w, IsWordChar)))
  {
    var q := p + |keywords[0]|;
    var w := RunEnd(s, q, IsSpace);
    assert forall i :: 0 <= i < w - q ==> s[q..w][i] == s[q + i];
  }

  /** An alternative that does not open the text at `p` is passed over. */
  lemma MatchWithSkipsFirst(s: string, p: nat, keywords: seq<string>)
    requires keywords != [] && p <= |s|
    requires !(p + |keywords[0]| <= |s| && s[p..p + |keywords[0]|] == keywords[0])
    ensures MatchWith(s, p, keywords) == MatchWith(s, p, keywords[1..])
  {
  }

  /** The first three letters of `type`, `input`, `interface`, `enum`, `union`
      and `scalar`: an alternative of the expression can only begin where three
      such letters stand. */
  predicate KeywordHead(a: char, b: char, c: char)
  {
    || (a == 't' && b == 'y' && c == 'p')
    || (a == 'i' && b == 'n' && (c == 'p' || c == 't'))
    || (a == 'e' && b == 'n' && c == 'u')
    || (a == 'u' && b == 'n' && c == 'i')
    || (a == 's' && b == 'c' && c == 'a')
  }

  /** No alternative of the expression can begin inside `t`, whatever text
      follows it: no three consecutive characters open a keyword, and `t` ends
      in a character that no keyword contains. */
  predicate Quiet(t: string)
  {
    (t == [] || !IsWordChar(t[|t| - 1]))
    && forall j :: 0 <= j < |t| - 2 ==> !KeywordHead(t[j], t[j + 1], t[j + 2])
  }

  /** Every keyword is a word of at least four characters that opens with
      the head of a keyword. */
  lemma KeywordShape(kw: string)
    requires kw in NameKeywords
    ensures |kw| >= 4 && KeywordHead(kw[0], kw[1], kw[2]) && IsWord(kw)
  {
    if kw == "interface" {
      WordOfChars("interface");
    } else if kw == "scalar" {
      WordOfChars("scalar");
    } else if kw == "input" {
      WordOfChars("input");
    } else if kw == "union" {
      WordOfChars("union");
    } else if kw == "enum" {
      WordOfChars("enum");
    } else {
      WordOfChars("type");
    }
  }

  /** A declaration start opens with the head of its keyword, and the keyword's
      characters are word characters. */
  lemma HeadOfDecl(s: string, q: nat, kw: string, w: nat)
    requires kw in NameKeywords && DeclStart(s, q, kw, w)
    ensures |kw| >= 4 && q + 3 < |s| && KeywordHead(s[q], s[q + 1], s[q + 2])
    ensures forall i :: q <= i < q + |kw| ==> IsWordChar(s[i])
  {
    KeywordShape(kw);
    var n := |kw|;
    assert s[q..q + n] == kw;
    forall i | q <= i < q + n
      ensures IsWordChar(s[i])
    {
      assert s[i] == kw[i - q];
    }
    assert s[q] == kw[0] && s[q + 1] == kw[1] && s[q + 2] == kw[2];
  }

  /** No match starts inside quiet text. */
  lemma NoMatchInQuiet(s: string, a: nat, b: nat, q: nat)
    requires a <= q < b <= |s| && Quiet(s[a..b])
    ensures MatchAt(s, q).None?
  {
    MatchAtSpec(s, q);
    QuietAt(s, a, b, q);
    forall kw: string, w: nat | kw in NameKeywords
      ensures !DeclStart(s, q, kw, w)
    {
      if DeclStart(s, q, kw, w) {
        HeadOfDecl(s, q, kw, w);
      }
    }
  }

  /** What quiet text says about one of its positions in the whole text. */
  lemma QuietAt(s: string, a: nat, b: nat, q: nat)
    requires a <= q < b <= |s| && Quiet(s[a..b])
    ensures q + 3 <= b ==> !KeywordHead(s[q], s[q + 1], s[q + 2])
    ensures !IsWordChar(s[b - 1])
  {
    var t := s[a..b];
    assert t[|t| - 1] == s[b - 1];
    if q + 3 <= b {
      assert t[q - a] == s[q] && t[q - a + 1] == s[q + 1] && t[q - a + 2] == s[q + 2];
    }
  }

  /** Whitespace is quiet. */
  lemma SpaceIsQuiet(t: string)
    requires AllSpace(t)
    ensures Quiet(t)
  {
    if t != [] {
      SpaceIsNotWord(t[|t| - 1]);
    }
    forall j | 0 <= j < |t| - 2
      ensures !KeywordHead(t[j], t[j + 1], t[j + 2])
    {
      assert IsSpace(t[j]);
    }
  }

  /** `exec` passes over quiet text: the next match starts after it. */
  lemma ExecSkipsQuiet(s: string, a: nat, b: nat)
    requires a <= b <= |s| && Quiet(s[a..b])
    ensures Exec(s, a) == Exec(s, b)
    ensures NamesFrom(s, a) == NamesFrom(s, b)
  {
    forall q | a <= q < b
      ensures MatchAt(s, q).None?
    {
      NoMatchInQuiet(s, a, b, q);
    }
    ExecSkipsFrom(s, a, b);
  }

  /** `exec` passes over a stretch where no position starts a match. */
  lemma ExecSkipsFrom(s: string, q: nat, b: nat)
    requires q <= b <= |s| && NoMatchBetween(s, q, b)
    ensures Exec(s, q) == Exec(s, b)
  {
    NoMatchBetweenIsWith(s, q, b);
    ExecWithSkips(s, q, b, NameKeywords);
  }

  /** One declaration of a type definition: a keyword, whitespace, the name and
      the rest of the declaration up to the next one. */
  datatype Declaration = Declaration(keyword: string, space: string, name: string, body: string)

  predicate WellFormed(d: Declaration)
  {
    d.keyword in NameKeywords && d.space != [] && AllSpace(d.space) && IsWord(d.name)
    && d.body != [] && !IsWordChar(d.body[0]) && Quiet(d.body)
  }

  function DeclarationText(d: Declaration): string
  {
    d.keyword + d.space + d.name + d.body
  }

  function Concat(ds: seq<Declaration>): string
  {
    if ds == [] then "" else DeclarationText(ds[0]) + Concat(ds[1..])
  }

  function Names(ds: seq<Declaration>): (r: seq<string>)
    ensures |r| == |ds|
    ensures forall k :: 0 <= k < |ds| ==> r[k] == ds[k].name
  {
    if ds == [] then [] else [ds[0].name] + Names(ds[1..])
  }

  /** A declaration contributes its own name and lets `exec` resume at the next
      declaration. */
  lemma NamesOfDeclaration(pre: string, d: Declaration, post: string)
    requires WellFormed(d)
    ensures NamesFrom(pre + DeclarationText(d) + post, |pre|)
            == [d.name] + NamesFrom(pre + DeclarationText(d) + post, |pre + DeclarationText(d)|)
  {
    var s := pre + DeclarationText(d) + post;
    var e := |pre| + |d.keyword| + |d.space| + |d.name|;
    DeclarationExec(pre, d, post, s, e);
    NamesAcrossMatch(s, |pre|, e, e + |d.body|, d.name, d.body);
  }

  /** A match followed by a quiet stretch contributes its name, and the search
      resumes after the stretch. */
  lemma NamesAcrossMatch(s: string, p: nat, e: nat, b: nat, name: string, body: string)
    requires p <= e <= b <= |s| && Exec(s, p) == Some(Match(name, e))
    requires s[e..b] == body && Quiet(body)
    ensures NamesFrom(s, p) == [name] + NamesFrom(s, b)
  {
    NamesFromMatch(s, p, Match(name, e));
    ExecSkipsQuiet(s, e, b);
  }

  /** A match found by `exec` contributes its name, and the search resumes at
      its end. */
  lemma NamesFromMatch(s: string, from: nat, m: Match)
    requires from <= |s| && Exec(s, from) == Some(m)
    ensures NamesFrom(s, from) == [m.name] + NamesFrom(s, m.end)
  {
  }

  /** `exec` at the start of a well-formed declaration yields its name and stops
      where its body begins. */
  lemma DeclarationExec(pre: string, d: Declaration, post: string, s: string, e: nat)
    requires WellFormed(d)
    requires s == pre + DeclarationText(d) + post && e == |pre| + |d.keyword| + |d.space| + |d.name|
    ensures e + |d.body| <= |s| && Exec(s, |pre|) == Some(Match(d.name, e)) && s[e..e + |d.body|] == d.body
  {
    PartSlices(pre, d.keyword, d.space, d.name, d.body, post);
    ExecAtDeclaration(s, |pre|, d.keyword, d.space, d.name, d.body, e);
  }

  /** Seen from inside a longer text, `kw`, then whitespace `sp`, then the word
      `name` ending at `e` is matched by `exec` at once. */
  lemma ExecAtDeclaration(s: string, p: nat, kw: string, sp: string, name: string, body: string, e: nat)
    requires p + |kw| + |sp| + |name| == e && e + |body| <= |s|
    requires s[p..p + |kw|] == kw && s[p + |kw|..p + |kw| + |sp|] == sp
    requires s[p + |kw| + |sp|..e] == name && s[e..e + |body|] == body
    requires kw in NameKeywords && sp != [] && AllSpace(sp) && IsWord(name)
    requires body != [] && !IsWordChar(body[0])
    ensures Exec(s, p) == Some(Match(name, e))
  {
    var w := p + |kw| + |sp|;
    WordRunEnds(s, w, name, body);
    DeclStartOf(s, p, kw, sp, w);
    ExecAtDeclStart(s, p, kw, w, e);
  }

  lemma DeclStartOf(s: string, p: nat, kw: string, sp: string, w: nat)
    requires p + |kw| + |sp| == w < |s| && sp != [] && AllSpace(sp) && IsWordChar(s[w])
    requires s[p..p + |kw|] == kw && s[p + |kw|..w] == sp
    ensures DeclStart(s, p, kw, w)
  {
  }

  lemma ExecAtDeclStart(s: string, p: nat, kw: string, w: nat, e: nat)
    requires kw in NameKeywords && DeclStart(s, p, kw, w) && RunEnd(s, w, IsWordChar) == e
    ensures Exec(s, p) == Some(Match(s[w..e], e))
  {
    MatchOfDeclStart(s, p, kw, w);
    ExecAtMatch(s, p);
  }

  /** A word followed by a non-word character is one whole run of word
      characters. */
  lemma WordRunEnds(s: string, w: nat, name: string, body: string)
    requires w + |name| + |body| <= |s| && IsWord(name) && body != [] && !IsWordChar(body[0])
    requires s[w..w + |name|] == name && s[w + |name|..w + |name| + |body|] == body
    ensures IsWordChar(s[w]) && RunEnd(s, w, IsWordChar) == w + |name|
  {
    var e := w + |name|;
    assert s[e] == s[e..e + |body|][0];
    assert s[w] == s[w..e][0];
    forall i | w <= i < e
      ensures IsWordChar(s[i])
    {
      assert s[i] == s[w..e][i - w];
    }
    RunEndAt(s, w, e, IsWordChar);
  }

  lemma PartSlices(pre: string, k: string, sp: string, n: string, bd: string, post: string)
    ensures var s := pre + (k + sp + n + bd) + post;
            var q := |pre| + |k|;
            var w := q + |sp|;
            var e := w + |n|;
            s[|pre|..q] == k && s[q..w] == sp && s[w..e] == n && s[e..e + |bd|] == bd
  {
    var s := pre + (k + sp + n + bd) + post;
    var q := |pre| + |k|;
    var w := q + |sp|;
    var e := w + |n|;
    forall i | 0 <= i < |k| ensures s[|pre| + i] == k[i] { }
    forall i | 0 <= i < |sp| ensures s[q + i] == sp[i] { }
    forall i | 0 <= i < |n| ensures s[w + i] == n[i] { }
    forall i | 0 <= i < |bd| ensures s[e + i] == bd[i] { }
    SliceOf(s, |pre|, k);
    SliceOf(s, q, sp);
    SliceOf(s, w, n);
    SliceOf(s, e, bd);
  }

  lemma SliceOf(s: string, p: nat, t: string)
    requires p + |t| <= |s|
    requires forall i :: 0 <= i < |t| ==> s[p + i] == t[i]
    ensures s[p..p + |t|] == t
  {
    forall i | 0 <= i < |t|
      ensures s[p..p + |t|][i] == t[i]
    {
    }
  }

  lemma {:induction false} NamesOfDeclarations(pre: string, ds: seq<Declaration>)
    requires forall k :: 0 <= k < |ds| ==> WellFormed(ds[k])
    ensures NamesFrom(pre + Concat(ds), |pre|) == Names(ds)
    decreases |ds|
  {
    if ds == [] {
      assert pre + Concat(ds) == pre;
    } else {
      var t := DeclarationText(ds[0]);
      var rest := Concat(ds[1..]);
      AppendAssoc(pre, t, rest);
      NamesOfDeclaration(pre, ds[0], rest);
      NamesOfDeclarations(pre + t, ds[1..]);
    }
  }

  lemma AppendAssoc(a: string, b: string, c: string)
    ensures a + (b + c) == a + b + c
  {
  }

  /** The names extracted from a run of well-formed declarations after leading
      whitespace are the declared names, in order of appearance. */
  lemma TypeNamesInOrder(pad: string, ds: seq<Declaration>)
    requires AllSpace(pad)
    requires forall k :: 0 <= k < |ds| ==> WellFormed(ds[k])
    ensures TypeNames(pad + Concat(ds)) == Names(ds)
  {
    PaddedIsUnmarked(pad, ds);
    PaddedNames(pad, ds);
  }

  lemma PaddedNames(pad: string, ds: seq<Declaration>)
    requires AllSpace(pad)
    requires forall k :: 0 <= k < |ds| ==> WellFormed(ds[k])
    ensures NamesFrom(pad + Concat(ds), 0) == Names(ds)
  {
    SkipPad(pad, ds);
    NamesOfDeclarations(pad, ds);
  }

  lemma SkipPad(pad: string, ds: seq<Declaration>)
    requires AllSpace(pad)
    ensures NamesFrom(pad + Concat(ds), 0) == NamesFrom(pad + Concat(ds), |pad|)
  {
    var s := pad + Concat(ds);
    assert s[0..|pad|] == pad;
    SpaceIsQuiet(pad);
    ExecSkipsQuiet(s, 0, |pad|);
  }

  lemma PaddedIsUnmarked(pad: string, ds: seq<Declaration>)
    requires AllSpace(pad)
    requires forall k :: 0 <= k < |ds| ==> WellFormed(ds[k])
    ensures TypeNames(pad + Concat(ds)) == NamesFrom(pad + Concat(ds), 0)
  {
    if ds != [] {
      assert WellFormed(ds[0]);
    }
    UnmarkedPadded(pad, ds);
    if pad + Concat(ds) != [] {
      UnmarkedStart(pad + Concat(ds));
    }
  }

  /** Whitespace or a keyword opens the text, so there is no marker to strip. */
  lemma UnmarkedPadded(pad: string, ds: seq<Declaration>)
    requires AllSpace(pad)
    requires ds != [] ==> ds[0].keyword in NameKeywords
    ensures pad + Concat(ds) != [] ==> (pad + Concat(ds))[0] != '#'
  {
    var s := pad + Concat(ds);
    if s != [] {
      if pad != [] {
        assert s[0] == pad[0];
        assert IsSpace(pad[0]);
      } else {
        var d := ds[0];
        KeywordShape(d.keyword);
        assert s == DeclarationText(d) + Concat(ds[1..]);
        assert s[0] == d.keyword[0];
      }
    }
  }

  lemma ConcatThree(d1: Declaration, d2: Declaration, d3: Declaration)
    ensures Concat([d1, d2, d3]) == DeclarationText(d1) + DeclarationText(d2) + DeclarationText(d3)
  {
    var ds := [d1, d2, d3];
    assert ds[1..] == [d2, d3];
    assert ds[1..][1..] == [d3];
    assert ds[1..][1..][1..] == [];
    assert Concat([d3]) == DeclarationText(d3) + Concat([]);
    assert Concat([d2, d3]) == DeclarationText(d2) + Concat([d3]);
  }

  /** The declarations of the library's own example, one per line of its
      template literal. */
  const ExampleDeclarations: seq<Declaration> := [
    Declaration("type", " ", "User", " { id: ID! }\n\t\t\t\t"),
    Declaration("enum", " ", "Status", " { ACTIVE }\n\t\t\t\t"),
    Declaration("interface", " ", "Node", " { id: ID! }\n\t\t\t")]

  /** The example yields `User`, `Status` and `Node`, in that order. */
  lemma TypeNamesExample()
    ensures TypeNames("\n\t\t\t\t" + "type User { id: ID! }\n\t\t\t\t" + "enum Status { ACTIVE }\n\t\t\t\t"
                      + "interface Node { id: ID! }\n\t\t\t")
            == ["User", "Status", "Node"]
  {
    var pad := "\n\t\t\t\t";
    ExampleText();
    ExampleWellFormed();
    assert AllSpace(pad);
    TypeNamesInOrder(pad, ExampleDeclarations);
    assert Names(ExampleDeclarations) == ["User", "Status", "Node"];
  }

  lemma ExampleText()
    ensures "\n\t\t\t\t" + Concat(ExampleDeclarations)
            == "\n\t\t\t\t" + "type User { id: ID! }\n\t\t\t\t" + "enum Status { ACTIVE }\n\t\t\t\t"
               + "interface Node { id: ID! }\n\t\t\t"
  {
    var ds := ExampleDeclarations;
    assert ds == [ds[0], ds[1], ds[2]];
    PadConcatThree("\n\t\t\t\t", ds[0], ds[1], ds[2]);
    ExampleLines();
  }

  lemma ExampleLines()
    ensures DeclarationText(ExampleDeclarations[0]) == "type User { id: ID! }\n\t\t\t\t"
    ensures DeclarationText(ExampleDeclarations[1]) == "enum Status { ACTIVE }\n\t\t\t\t"
    ensures DeclarationText(ExampleDeclarations[2]) == "interface Node { id: ID! }\n\t\t\t"
  {
    UserLine();
    StatusLine();
    NodeLine();
  }

  lemma UserLine()
    ensures DeclarationText(Declaration("type", " ", "User", " { id: ID! }\n\t\t\t\t"))
            == "type User { id: ID! }\n\t\t\t\t"
  {
  }

  lemma StatusLine()
    ensures DeclarationText(Declaration("enum", " ", "Status", " { ACTIVE }\n\t\t\t\t"))
            == "enum Status { ACTIVE }\n\t\t\t\t"
  {
  }

  lemma NodeLine()
    ensures DeclarationText(Declaration("interface", " ", "Node", " { id: ID! }\n\t\t\t"))
            == "interface Node { id: ID! }\n\t\t\t"
  {
  }

  lemma PadConcatThree(pad: string, d1: Declaration, d2: Declaration, d3: Declaration)
    ensures pad + Concat([d1, d2, d3])
            == pad + DeclarationText(d1) + DeclarationText(d2) + DeclarationText(d3)
  {
    ConcatThree(d1, d2, d3);
    var t1, t2, t3 := DeclarationText(d1), DeclarationText(d2), DeclarationText(d3);
    assert pad + (t1 + t2 + t3) == pad + t1 + t2 + t3;
  }

  lemma ExampleWellFormed()
    ensures forall k :: 0 <= k < |ExampleDeclarations| ==> WellFormed(ExampleDeclarations[k])
  {
    var ds := ExampleDeclarations;
    assert ds[0] == Declaration("type", " ", "User", " { id: ID! }\n\t\t\t\t");
    assert ds[1] == Declaration("enum", " ", "Status", " { ACTIVE }\n\t\t\t\t");
    assert ds[2] == Declaration("interface", " ", "Node", " { id: ID! }\n\t\t\t");
    TypeUserWellFormed();
    EnumStatusWellFormed();
    InterfaceNodeWellFormed();
  }

  lemma TypeUserWellFormed()
    ensures WellFormed(Declaration("type", " ", "User", " { id: ID! }\n\t\t\t\t"))
  {
    WordOfChars("User");
    IdBodyQuiet("}\n\t\t\t\t");
    assert " { id: ID! " + "}\n\t\t\t\t" == " { id: ID! }\n\t\t\t\t";
    SpacedDeclWellFormed(0, "User", " { id: ID! }\n\t\t\t\t");
  }

  lemma EnumStatusWellFormed()
    ensures WellFormed(Declaration("enum", " ", "Status", " { ACTIVE }\n\t\t\t\t"))
  {
    WordOfChars("Status");
    NoLowerIsQuiet(" { ACTIVE }\n\t\t\t\t");
    SpacedDeclWellFormed(2, "Status", " { ACTIVE }\n\t\t\t\t");
  }

  lemma InterfaceNodeWellFormed()
    ensures WellFormed(Declaration("interface", " ", "Node", " { id: ID! }\n\t\t\t"))
  {
    WordOfChars("Node");
    IdBodyQuiet("}\n\t\t\t");
    assert " { id: ID! " + "}\n\t\t\t" == " { id: ID! }\n\t\t\t";
    SpacedDeclWellFormed(3, "Node", " { id: ID! }\n\t\t\t");
  }

  /** The `i`-th keyword, one space, a word and a quiet body that opens with a
      non-word character make a well-formed declaration. */
  lemma SpacedDeclWellFormed(i: nat, name: string, body: string)
    requires i < |NameKeywords| && IsWord(name)
    requires body != [] && !IsWordChar(body[0]) && Quiet(body)
    ensures WellFormed(Declaration(NameKeywords[i], " ", name, body))
  {
    assert IsSpace(" "[0]);
  }

  lemma WordOfChars(w: string)
    requires w != [] && forall c :: c in w ==> IsWordChar(c)
    ensures IsWord(w)
  {
    forall j | 0 <= j < |w|
      ensures IsWordChar(w[j])
    {
      assert w[j] in w;
    }
  }

  /** Text without lower-case letters that ends in a non-word character is quiet. */
  lemma NoLowerIsQuiet(t: string)
    requires t != [] && !IsWordChar(t[|t| - 1])
    requires forall c :: c in t ==> !('a' <= c <= 'z')
    ensures Quiet(t)
  {
    forall j | 0 <= j < |t| - 2
      ensures !KeywordHead(t[j], t[j + 1], t[j + 2])
    {
      assert t[j] in t;
    }
  }

  /** An `id: ID!` field, then text without lower-case letters, is quiet. */
  lemma IdBodyQuiet(rest: string)
    requires rest != [] && !IsWordChar(rest[|rest| - 1])
    requires forall c :: c in rest ==> !('a' <= c <= 'z')
    ensures Quiet(" { id: ID! " + rest)
  {
    IdFieldQuiet();
    NoLowerIsQuiet(rest);
    QuietAppend(" { id: ID! ", rest);
  }

  /** No keyword head starts at `j` or later. */
  predicate NoHeadFrom(t: string, j: nat)
    decreases |t| - j
  {
    j + 2 >= |t| || (!KeywordHead(t[j], t[j + 1], t[j + 2]) && NoHeadFrom(t, j + 1))
  }

  lemma {:induction false} NoHeadFromSound(t: string, j: nat)
    requires NoHeadFrom(t, j)
    ensures forall k :: j <= k < |t| - 2 ==> !KeywordHead(t[k], t[k + 1], t[k + 2])
    decreases |t| - j
  {
    if j + 2 < |t| {
      NoHeadFromSound(t, j + 1);
    }
  }

  /** Quietness checked position by position. */
  lemma QuietByScan(t: string)
    requires t == [] || !IsWordChar(t[|t| - 1])
    requires NoHeadFrom(t, 0)
    ensures Quiet(t)
  {
    NoHeadFromSound(t, 0);
  }

  /** Quiet texts stay quiet side by side. */
  lemma QuietAppend(a: string, b: string)
    requires Quiet(a) && Quiet(b)
    ensures Quiet(a + b)
  {
    var t := a + b;
    if b != [] {
      assert t[|t| - 1] == b[|b| - 1];
    }
    forall j | 0 <= j < |t| - 2
      ensures !KeywordHead(t[j], t[j + 1], t[j + 2])
    {
      if j + 2 < |a| {
        assert t[j] == a[j] && t[j + 1] == a[j + 1] && t[j + 2] == a[j + 2];
      } else if j >= |a| {
        assert t[j] == b[j - |a|] && t[j + 1] == b[j + 1 - |a|] && t[j + 2] == b[j + 2 - |a|];
      } else if j + 1 == |a| {
        assert t[j] == a[|a| - 1];
      } else {
        assert t[j + 1] == a[|a| - 1];
      }
    }
  }

  /** A single declaration yields its name. */
  lemma TypeNamesSingle(w: string, name: string)
    requires w != [] && AllSpace(w) && IsWord(name)
    ensures TypeNames("type" + w + name) == [name]
  {
    var s := "type" + w + name;
    UnmarkedStart(s);
    DeclMatch(s, w, name);
    assert Exec(s, 0) == Some(Match(name, |s|));
    assert NamesFrom(s, |s|) == [];
    assert NamesFrom(s, 0) == [name] + NamesFrom(s, |s|);
  }

  lemma UnmarkedStart(s: string)
    requires s != [] && s[0] != '#'
    ensures StripMarker(s) == s
  {
    if |Marker| <= |s| {
      assert s[..|Marker|][0] == s[0];
    }
  }

  lemma DeclMatch(s: string, w: string, name: string)
    requires w != [] && AllSpace(w) && IsWord(name)
    requires s == "type" + w + name
    ensures MatchAt(s, 0) == Some(Match(name, |s|))
  {
    var e := 4 + |w|;
    assert s[0..4] == "type";
    assert s[4..e] == w;
    assert s[e] == name[0];
    assert DeclStart(s, 0, "type", e);
    RunEndAt(s, e, |s|, IsWordChar);
    assert s[e..|s|] == name;
    MatchOfDeclStart(s, 0, "type", e);
  }

  /** The run of `p`-characters from `q` ends at `e` when every character in
      between satisfies `p` and the one at `e` (if any) does not. */
  lemma {:induction false} RunEndAt(s: string, q: nat, e: nat, p: char -> bool)
    requires q <= e <= |s|
    requires forall i :: q <= i < e ==> p(s[i])
    requires e == |s| || !p(s[e])
    ensures RunEnd(s, q, p) == e
    decreases e - q
  {
    if q < e {
      RunEndAt(s, q + 1, e, p);
    }
  }

  // ---------------------------------------------------------------------------
  // deduplicateTypeDefs

  function NameSet(names: seq<string>): set<string>
  {
    set i | 0 <= i < |names| :: names[i]
  }

  predicate HasNewName(names: seq<string>, seen: set<string>)
  {
    exists i :: 0 <= i < |names| && names[i] !in seen
  }

  /** Every name declared by a list of definitions, where `namesOf` gives the
      names one definition declares. */
  function DeclaredBy(defs: seq<string>, namesOf: string -> seq<string>): set<string>
  {
    if defs == [] then {} else NameSet(namesOf(defs[0])) + DeclaredBy(defs[1..], namesOf)
  }

  /** The loop of `deduplicateTypeDefs` from a given `seen` set on. The proofs
      below hold for any way of reading names off a definition. */
  function DedupFrom(defs: seq<string>, seen: set<string>, namesOf: string -> seq<string>): seq<string>
  {
    if defs == [] then []
    else
      var names := namesOf(defs[0]);
      if HasNewName(names, seen) then [defs[0]] + DedupFrom(defs[1..], seen + NameSet(names), namesOf)
      else DedupFrom(defs[1..], seen, namesOf)
  }

  /** The specification of `deduplicateTypeDefs`. */
  function Deduplicated(defs: seq<string>): seq<string>
  {
    DedupFrom(defs, {}, TypeNames)
  }

  /** `deduplicateTypeDefs`: keep a definition iff it declares a name not yet seen. */
  method DeduplicateTypeDefs(typeDefs: seq<string>) returns (result: seq<string>)
    ensures result == Deduplicated(typeDefs)
    ensures IsSubsequence(result, typeDefs)
  {
    var seen: set<string> := {};
    result := [];
    for i := 0 to |typeDefs|
      invariant result + DedupFrom(typeDefs[i..], seen, TypeNames) == Deduplicated(typeDefs)
    {
      var typeNames := ExtractTypeNames(typeDefs[i]);
      DedupStep(typeDefs, i, seen, TypeNames);
      if HasNewName(typeNames, seen) {
        AppendOne(result, typeDefs[i], DedupFrom(typeDefs[i + 1..], seen + NameSet(typeNames), TypeNames));
        seen := seen + NameSet(typeNames);
        result := result + [typeDefs[i]];
      }
    }
    DedupIsSubsequence(typeDefs, {}, TypeNames);
  }

  lemma AppendOne(a: seq<string>, x: string, b: seq<string>)
    ensures a + ([x] + b) == (a + [x]) + b
  {
  }

  lemma DedupStep(defs: seq<string>, i: nat, seen: set<string>, namesOf: string -> seq<string>)
    requires i < |defs|
    ensures var names := namesOf(defs[i]);
            DedupFrom(defs[i..], seen, namesOf)
            == if HasNewName(names, seen) then [defs[i]] + DedupFrom(defs[i + 1..], seen + NameSet(names), namesOf)
               else DedupFrom(defs[i + 1..], seen, namesOf)
  {
    assert defs[i..][1..] == defs[i + 1..];
  }

  lemma {:induction false} DedupIsSubsequence(defs: seq<string>, seen: set<string>, namesOf: string -> seq<string>)
    ensures IsSubsequence(DedupFrom(defs, seen, namesOf), defs)
  {
    if defs != [] {
      var names := namesOf(defs[0]);
      if HasNewName(names, seen) {
        DedupIsSubsequence(defs[1..], seen + NameSet(names), namesOf);
      } else {
        DedupIsSubsequence(defs[1..], seen, namesOf);
        SubsequenceSkip(DedupFrom(defs[1..], seen, namesOf), defs[0], defs[1..]);
        assert [defs[0]] + defs[1..] == defs;
      }
    }
  }

  /** Each kept definition declares a name that neither `seen` nor any earlier
      kept definition declares; in particular a definition without names is
      never kept. */
  lemma {:induction false} DedupKeepsOnlyNewNames(defs: seq<string>, seen: set<string>, namesOf: string -> seq<string>, k: nat)
    requires k < |DedupFrom(defs, seen, namesOf)|
    ensures var r := DedupFrom(defs, seen, namesOf);
            HasNewName(namesOf(r[k]), seen + DeclaredBy(r[..k], namesOf))
  {
    var r := DedupFrom(defs, seen, namesOf);
    var names := namesOf(defs[0]);
    if HasNewName(names, seen) {
      var seen' := seen + NameSet(names);
      var r' := DedupFrom(defs[1..], seen', namesOf);
      if k == 0 {
        assert r[..0] == [];
      } else {
        DedupKeepsOnlyNewNames(defs[1..], seen', namesOf, k - 1);
        assert r[k] == r'[k - 1];
        assert r[..k] == [defs[0]] + r'[..k - 1];
        assert DeclaredBy(r[..k], namesOf) == NameSet(names) + DeclaredBy(r'[..k - 1], namesOf);
      }
    } else {
      DedupKeepsOnlyNewNames(defs[1..], seen, namesOf, k);
    }
  }

  /** No declared name is lost: every name of every input definition is in
      `seen` or declared by a kept definition. */
  lemma {:induction false} DedupCoversAllNames(defs: seq<string>, seen: set<string>, namesOf: string -> seq<string>)
    ensures DeclaredBy(defs, namesOf) <= seen + DeclaredBy(DedupFrom(defs, seen, namesOf), namesOf)
  {
    if defs != [] {
      var names := namesOf(defs[0]);
      if HasNewName(names, seen) {
        DedupCoversAllNames(defs[1..], seen + NameSet(names), namesOf);
        assert DedupFrom(defs, seen, namesOf)[1..] == DedupFrom(defs[1..], seen + NameSet(names), namesOf);
      } else {
        DedupCoversAllNames(defs[1..], seen, namesOf);
        assert NameSet(names) <= seen;
      }
    }
  }

  /** The three facts together, from an empty `seen` set: the result keeps input
      order, each kept definition brings a new name, and every name survives. */
  lemma DeduplicatedSpec(defs: seq<string>)
    ensures IsSubsequence(Deduplicated(defs), defs)
    ensures forall k :: 0 <= k < |Deduplicated(defs)| ==>
              HasNewName(TypeNames(Deduplicated(defs)[k]), DeclaredBy(Deduplicated(defs)[..k], TypeNames))
    ensures DeclaredBy(defs, TypeNames) == DeclaredBy(Deduplicated(defs), TypeNames)
  {
    var r := Deduplicated(defs);
    DedupIsSubsequence(defs, {}, TypeNames);
    forall k | 0 <= k < |r|
      ensures HasNewName(TypeNames(r[k]), DeclaredBy(r[..k], TypeNames))
    {
      DedupKeepsOnlyNewNames(defs, {}, TypeNames, k);
      assert {} + DeclaredBy(r[..k], TypeNames) == DeclaredBy(r[..k], TypeNames);
    }
    DedupCoversAllNames(defs, {}, TypeNames);
    DeclaredBySubsequence(r, defs, TypeNames);
  }

  /** The loop's step: the next definition is kept exactly when it declares a
      name that neither `seen` nor any definition kept so far declares. */
  lemma {:induction false} DedupSnoc(defs: seq<string>, x: string, seen: set<string>, namesOf: string -> seq<string>)
    ensures var r := DedupFrom(defs, seen, namesOf);
            DedupFrom(defs + [x], seen, namesOf)
            == r + (if HasNewName(namesOf(x), seen + DeclaredBy(r, namesOf)) then [x] else [])
  {
    var r := DedupFrom(defs, seen, namesOf);
    if defs == [] {
      assert [] + [x] == [x];
      assert seen + DeclaredBy([], namesOf) == seen;
    } else {
      var names := namesOf(defs[0]);
      assert (defs + [x])[0] == defs[0];
      assert (defs + [x])[1..] == defs[1..] + [x];
      if HasNewName(names, seen) {
        var seen' := seen + NameSet(names);
        var r' := DedupFrom(defs[1..], seen', namesOf);
        DedupSnoc(defs[1..], x, seen', namesOf);
        assert r == [defs[0]] + r';
        assert r[1..] == r';
        assert seen + DeclaredBy(r, namesOf) == seen' + DeclaredBy(r', namesOf);
      } else {
        DedupSnoc(defs[1..], x, seen, namesOf);
      }
    }
  }

  /** `deduplicateTypeDefs` one definition at a time: definition `i` is kept
      exactly when it declares a type name that no definition kept before it
      declares, and the earlier choices stay as they were. */
  lemma DeduplicatedStep(defs: seq<string>, i: nat)
    requires i < |defs|
    ensures var r := Deduplicated(defs[..i]);
            Deduplicated(defs[..i + 1])
            == r + (if HasNewName(TypeNames(defs[i]), DeclaredBy(r, TypeNames)) then [defs[i]] else [])
  {
    assert defs[..i + 1] == defs[..i] + [defs[i]];
    DedupSnoc(defs[..i], defs[i], {}, TypeNames);
    assert {} + DeclaredBy(Deduplicated(defs[..i]), TypeNames) == DeclaredBy(Deduplicated(defs[..i]), TypeNames);
  }

  /** One well-formed declaration yields its own name. */
  lemma TypeNamesOfDeclaration(d: Declaration)
    requires WellFormed(d)
    ensures TypeNames(DeclarationText(d)) == [d.name]
  {
    assert [d][1..] == [];
    assert Concat([d]) == DeclarationText(d);
    assert "" + Concat([d]) == DeclarationText(d);
    TypeNamesInOrder("", [d]);
  }

  /** The library's example: of two definitions of `User`, the first is kept,
      and `Post` between them is kept too. */
  lemma DeduplicateExample()
    ensures Deduplicated(["type User { id: ID! }", "type Post { title: String }",
                          "type User { id: ID! name: String }"])
            == ["type User { id: ID! }", "type Post { title: String }"]
  {
    ExampleTypeNames();
    DedupRepeatedName("type User { id: ID! }", "type Post { title: String }",
                      "type User { id: ID! name: String }", "User", "Post", TypeNames);
  }

  /** Three definitions naming `x`, `y` and `x` again: the third is dropped. */
  lemma DedupRepeatedName(a: string, b: string, c: string, x: string, y: string,
                          namesOf: string -> seq<string>)
    requires namesOf(a) == [x] && namesOf(b) == [y] && namesOf(c) == [x] && x != y
    ensures DedupFrom([a, b, c], {}, namesOf) == [a, b]
  {
    var s1 := NameSet([x]);
    assert [x][0] == x;
    assert x in s1;
    var s2 := s1 + NameSet([y]);
    assert [y][0] == y;
    assert x in s2 && y !in s1;
    assert !HasNewName([x], s2);
    assert HasNewName([y], s1);
    assert HasNewName([x], {});
    assert [a, b, c][1..] == [b, c];
    assert [b, c][1..] == [c];
    assert [c][1..] == [];
    assert DedupFrom([c], s2, namesOf) == [];
    assert DedupFrom([b, c], s1, namesOf) == [b];
    assert {} + NameSet(namesOf(a)) == s1;
    assert DedupFrom([a, b, c], {}, namesOf) == [a] + DedupFrom([b, c], s1, namesOf);
  }

  lemma ExampleTypeNames()
    ensures TypeNames("type User { id: ID! }") == ["User"]
    ensures TypeNames("type Post { title: String }") == ["Post"]
    ensures TypeNames("type User { id: ID! name: String }") == ["User"]
  {
    NamesU("type User { id: ID! }");
    NamesP("type Post { title: String }");
    NamesV("type User { id: ID! name: String }");
  }

  lemma NamesU(t: string)
    requires t == "type User { id: ID! }"
    ensures TypeNames(t) == ["User"]
  {
    NamesUText();
    UserWellFormed();
    TypeNamesOfDeclaration(Declaration("type", " ", "User", " { id: ID! }"));
  }

  lemma NamesUText()
    ensures DeclarationText(Declaration("type", " ", "User", " { id: ID! }")) == "type User { id: ID! }"
  {
  }

  lemma NamesP(t: string)
    requires t == "type Post { title: String }"
    ensures TypeNames(t) == ["Post"]
  {
    NamesPText();
    PostWellFormed();
    TypeNamesOfDeclaration(Declaration("type", " ", "Post", " { title: String }"));
  }

  lemma NamesPText()
    ensures DeclarationText(Declaration("type", " ", "Post", " { title: String }")) == "type Post { title: String }"
  {
  }

  lemma NamesV(t: string)
    requires t == "type User { id: ID! name: String }"
    ensures TypeNames(t) == ["User"]
  {
    NamesVText();
    UserWithNameWellFormed();
    TypeNamesOfDeclaration(Declaration("type", " ", "User", " { id: ID! name: String }"));
  }

  lemma NamesVText()
    ensures DeclarationText(Declaration("type", " ", "User", " { id: ID! name: String }")) == "type User { id: ID! name: String }"
  {
  }

  lemma UserWellFormed()
    ensures WellFormed(Declaration("type", " ", "User", " { id: ID! }"))
  {
    WordOfChars("User");
    IdBodyQuiet("}");
    assert " { id: ID! " + "}" == " { id: ID! }";
    SpacedDeclWellFormed(0, "User", " { id: ID! }");
  }

  lemma PostWellFormed()
    ensures WellFormed(Declaration("type", " ", "Post", " { title: String }"))
  {
    WordOfChars("Post");
    TitleBodyQuiet();
    SpacedDeclWellFormed(0, "Post", " { title: String }");
  }

  lemma UserWithNameWellFormed()
    ensures WellFormed(Declaration("type", " ", "User", " { id: ID! name: String }"))
  {
    WordOfChars("User");
    IdNameBodyQuiet();
    SpacedDeclWellFormed(0, "User", " { id: ID! name: String }");
  }

  lemma TitleBodyQuiet()
    ensures Quiet(" { title: String }")
  {
    QuietByScan(" { title: String }");
  }

  lemma IdNameBodyQuiet()
    ensures Quiet(" { id: ID! name: String }")
  {
    NameFieldQuiet();
    IdFieldQuiet();
    QuietAppend(" { id: ID! ", "name: String }");
    assert " { id: ID! " + "name: String }" == " { id: ID! name: String }";
  }

  lemma IdFieldQuiet()
    ensures Quiet(" { id: ID! ")
  {
    QuietByScan(" { id: ID! ");
  }

  lemma NameFieldQuiet()
    ensures Quiet("name: String }")
  {
    QuietByScan("name: String }");
  }

  lemma {:induction false} DeclaredBySubsequence(a: seq<string>, b: seq<string>, namesOf: string -> seq<string>)
    requires IsSubsequence(a, b)
    ensures DeclaredBy(a, namesOf) <= DeclaredBy(b, namesOf)
    decreases |b|
  {
    if a != [] {
      if a[0] == b[0] {
        DeclaredBySubsequence(a[1..], b[1..], namesOf);
      } else {
        DeclaredBySubsequence(a, b[1..], namesOf);
      }
    }
  }
}
