/** The schema builder: a mutable collector of cleaned SDL fragments, one list
    per kind of definition, rendered in a fixed order. */
module Schema {
  import opened Js
  import opened Text
  import opened Seqs
  import opened SchemaUtils

  /** The list a fragment goes to. */
  datatype Category = Scalar | Enum | Interface | Input | Union | Directive | SchemaDef | Type

  /** A detection rule of `addMultiple`: a marker word and the list it selects. */
  datatype Rule = Rule(marker: string, category: Category)

  /** The rules of `addMultiple` in the order they are tried; a fragment matching
      none of them is an object type. */
  const Rules: seq<Rule> := [
    Rule("scalar ", Scalar), Rule("enum ", Enum), Rule("interface ", Interface),
    Rule("input ", Input), Rule("union ", Union), Rule("directive ", Directive),
    Rule("schema ", SchemaDef)]

  /** The category of the first rule whose marker occurs in `cleaned`. */
  function FirstMatch(cleaned: string, rules: seq<Rule>): Category
  {
    if rules == [] then Type
    else if Contains(cleaned, rules[0].marker) then rules[0].category
    else FirstMatch(cleaned, rules[1..])
  }

  lemma {:induction false} FirstMatchSpec(cleaned: string, rules: seq<Rule>)
    ensures var c := FirstMatch(cleaned, rules);
            (forall k :: 0 <= k < |rules| ==> rules[k].category != Type) ==>
              (c == Type <==> forall k :: 0 <= k < |rules| ==> !Contains(cleaned, rules[k].marker))
    ensures var c := FirstMatch(cleaned, rules);
            c != Type ==> exists k :: 0 <= k < |rules| && rules[k].category == c && Contains(cleaned, rules[k].marker)
                                      && forall j :: 0 <= j < k ==> !Contains(cleaned, rules[j].marker)
  {
    if rules != [] && !Contains(cleaned, rules[0].marker) {
      FirstMatchSpec(cleaned, rules[1..]);
      assert forall k :: 1 <= k < |rules| ==> rules[k] == rules[1..][k - 1];
      var c := FirstMatch(cleaned, rules);
      if c != Type {
        var k :| 0 <= k < |rules[1..]| && rules[1..][k].category == c && Contains(cleaned, rules[1..][k].marker)
                 && forall j :: 0 <= j < k ==> !Contains(cleaned, rules[1..][j].marker);
        assert rules[k + 1].category == c && Contains(cleaned, rules[k + 1].marker);
        assert forall j :: 0 <= j < k + 1 ==> !Contains(cleaned, rules[j].marker);
      }
    }
  }

  /** The detection of `addMultiple`: the first marker word contained anywhere
      in the cleaned fragment decides; the test is a plain substring test. */
  function Classify(cleaned: string): Category
  {
    FirstMatch(cleaned, Rules)
  }

  /** A fragment is an object type exactly when it contains none of the marker
      words; otherwise its category is that of the first marker it contains. */
  lemma ClassifySpec(cleaned: string)
    ensures Classify(cleaned) == Type <==> forall k :: 0 <= k < |Rules| ==> !Contains(cleaned, Rules[k].marker)
    ensures Classify(cleaned) != Type ==>
              exists k :: 0 <= k < |Rules| && Rules[k].category == Classify(cleaned) && Contains(cleaned, Rules[k].marker)
                          && forall j :: 0 <= j < k ==> !Contains(cleaned, Rules[j].marker)
  {
    assert forall k :: 0 <= k < |Rules| ==> Rules[k].category != Type;
    FirstMatchSpec(cleaned, Rules);
  }

  /** A fragment declaring enums and an input but no scalar goes to the enum
      list as a whole: detection looks at markers, not at the first declaration. */
  lemma EnumBeforeInput(cleaned: string)
    requires Contains(cleaned, "enum ") && !Contains(cleaned, "scalar ")
    ensures Classify(cleaned) == Enum
  {
    var c := Classify(cleaned);
    ClassifySpec(cleaned);
    assert Rules[0].marker == "scalar " && Rules[1].marker == "enum ";
    assert Contains(cleaned, Rules[1].marker);
    var k :| 0 <= k < |Rules| && Rules[k].category == c && Contains(cleaned, Rules[k].marker)
             && forall j :: 0 <= j < k ==> !Contains(cleaned, Rules[j].marker);
    assert k == 1;
  }

  /** The eight lists of a builder, as a value. */
  datatype Parts = Parts(
    scalars: seq<string>, enums: seq<string>, interfaces: seq<string>, types: seq<string>,
    inputs: seq<string>, unions: seq<string>, directives: seq<string>, schema: Option<string>)

  const NoParts := Parts([], [], [], [], [], [], [], None)

  predicate AllTrimmed(xs: seq<string>)
  {
    forall k :: 0 <= k < |xs| ==> IsTrimmed(xs[k])
  }

  /** Every stored fragment went through cleaning. */
  predicate PartsTrimmed(p: Parts)
  {
    AllTrimmed(p.scalars) && AllTrimmed(p.enums) && AllTrimmed(p.interfaces) && AllTrimmed(p.types)
    && AllTrimmed(p.inputs) && AllTrimmed(p.unions) && AllTrimmed(p.directives)
    && (p.schema.Some? ==> IsTrimmed(p.schema.value))
  }

  /** The list a category selects; the schema definition is not a list. */
  function List(p: Parts, c: Category): seq<string>
    requires c != SchemaDef
  {
    match c
    case Scalar => p.scalars
    case Enum => p.enums
    case Interface => p.interfaces
    case Input => p.inputs
    case Union => p.unions
    case Directive => p.directives
    case Type => p.types
  }

  /** One cleaned fragment filed under a category, as the branches of
      `addMultiple` and the single add methods do. */
  function File(p: Parts, c: Category, cleaned: string): Parts
  {
    match c
    case Scalar => p.(scalars := p.scalars + [cleaned])
    case Enum => p.(enums := p.enums + [cleaned])
    case Interface => p.(interfaces := p.interfaces + [cleaned])
    case Input => p.(inputs := p.inputs + [cleaned])
    case Union => p.(unions := p.unions + [cleaned])
    case Directive => p.(directives := p.directives + [cleaned])
    case SchemaDef => p.(schema := Some(cleaned))
    case Type => p.(types := p.types + [cleaned])
  }

  /** Filing appends to the selected list and touches nothing else; a schema
      definition replaces the stored one. */
  lemma FileEffect(p: Parts, c: Category, cleaned: string)
    ensures c != SchemaDef ==> List(File(p, c, cleaned), c) == List(p, c) + [cleaned]
    ensures forall d :: d != c && d != SchemaDef ==> List(File(p, c, cleaned), d) == List(p, d)
    ensures File(p, c, cleaned).schema == if c == SchemaDef then Some(cleaned) else p.schema
  {
  }

  lemma FileTrimmed(p: Parts, c: Category, cleaned: string)
    requires PartsTrimmed(p) && IsTrimmed(cleaned)
    ensures PartsTrimmed(File(p, c, cleaned))
  {
  }

  /** Every fragment of `defs`, cleaned. */
  function CleanAll(defs: seq<string>): (r: seq<string>)
    ensures |r| == |defs|
    ensures forall i :: 0 <= i < |defs| ==> r[i] == CleanTypeDef(defs[i])
    ensures AllTrimmed(r)
  {
    seq(|defs|, i requires 0 <= i < |defs| => CleanTypeDef(defs[i]))
  }

  /** The state after filing the cleaned fragments `xs` in turn, starting from
      `p`: what `addMultiple` does once every fragment is cleaned. */
  function FileAll(p: Parts, xs: seq<string>): Parts
  {
    if xs == [] then p
    else File(FileAll(p, xs[..|xs| - 1]), Classify(xs[|xs| - 1]), xs[|xs| - 1])
  }

  lemma FileAllStep(p: Parts, xs: seq<string>, i: nat)
    requires i < |xs|
    ensures FileAll(p, xs[..i + 1]) == File(FileAll(p, xs[..i]), Classify(xs[i]), xs[i])
  {
    assert xs[..i + 1][..i] == xs[..i];
  }

  /** The fragments of `xs` that are detected as `c`, in input order. */
  function OfCategory(xs: seq<string>, c: Category): (r: seq<string>)
    ensures |r| <= |xs|
    ensures forall k :: 0 <= k < |r| ==> Classify(r[k]) == c
    ensures IsSubsequence(r, xs)
  {
    if xs == [] then []
    else
      var last := xs[|xs| - 1];
      var r := OfCategory(xs[..|xs| - 1], c) + (if Classify(last) == c then [last] else []);
      SubsequenceSnoc(OfCategory(xs[..|xs| - 1], c), xs[..|xs| - 1], last, Classify(last) == c);
      assert xs[..|xs| - 1] + [last] == xs;
      r
  }

  /** `addMultiple` appends to each list exactly the fragments detected for it,
      in input order. */
  lemma {:induction false} FileAllList(p: Parts, xs: seq<string>, c: Category)
    requires c != SchemaDef
    ensures List(FileAll(p, xs), c) == List(p, c) + OfCategory(xs, c)
  {
    if xs != [] {
      var init, last := xs[..|xs| - 1], xs[|xs| - 1];
      var q, d := FileAll(p, init), Classify(last);
      var added := if d == c then [last] else [];
      FileAllList(p, init, c);
      FileEffect(q, d, last);
      assert List(FileAll(p, xs), c) == List(q, c) + added;
      assert OfCategory(xs, c) == OfCategory(init, c) + added;
      assert List(p, c) + OfCategory(init, c) + added == List(p, c) + OfCategory(xs, c);
    }
  }

  /** After `addMultiple` the schema definition is the last one detected, or the
      previous one when none was. */
  lemma {:induction false} FileAllSchema(p: Parts, xs: seq<string>)
    ensures var found := OfCategory(xs, SchemaDef);
            FileAll(p, xs).schema == if found == [] then p.schema else Some(found[|found| - 1])
  {
    if xs != [] {
      var init, last := xs[..|xs| - 1], xs[|xs| - 1];
      FileAllSchema(p, init);
      FileEffect(FileAll(p, init), Classify(last), last);
    }
  }

  /** Every fragment lands in exactly one category. */
  lemma {:induction false} CategoriesPartition(xs: seq<string>)
    ensures |OfCategory(xs, Scalar)| + |OfCategory(xs, Enum)| + |OfCategory(xs, Interface)|
            + |OfCategory(xs, Input)| + |OfCategory(xs, Union)| + |OfCategory(xs, Directive)|
            + |OfCategory(xs, SchemaDef)| + |OfCategory(xs, Type)| == |xs|
  {
    if xs != [] {
      CategoriesPartition(xs[..|xs| - 1]);
    }
  }

  /** Filing cleaned fragments keeps every stored fragment trimmed. */
  lemma {:induction false} FileAllTrimmed(p: Parts, xs: seq<string>)
    requires PartsTrimmed(p) && AllTrimmed(xs)
    ensures PartsTrimmed(FileAll(p, xs))
  {
    if xs != [] {
      FileAllTrimmed(p, xs[..|xs| - 1]);
      FileTrimmed(FileAll(p, xs[..|xs| - 1]), Classify(xs[|xs| - 1]), xs[|xs| - 1]);
    }
  }

  /** The order `build` renders the lists in: directives, scalars, enums,
      interfaces, unions, inputs, types, then a non-empty schema definition. */
  function Sections(p: Parts): seq<string>
  {
    p.directives + p.scalars + p.enums + p.interfaces + p.unions + p.inputs + p.types
    + (if p.schema.Some? && p.schema.value != "" then [p.schema.value] else [])
  }

  /** `filter(Boolean)` on strings: drops the empty ones. */
  function NonEmpty(xs: seq<string>): (r: seq<string>)
    ensures forall k :: 0 <= k < |r| ==> r[k] != ""
    ensures |r| <= |xs|
  {
    if xs == [] then []
    else if xs[0] == "" then NonEmpty(xs[1..])
    else [xs[0]] + NonEmpty(xs[1..])
  }

  /** `build()`: the non-empty sections separated by blank lines. */
  function Render(p: Parts): (r: string)
    ensures r == "" <==> forall k :: 0 <= k < |Sections(p)| ==> Sections(p)[k] == ""
    ensures forall k :: 0 <= k < |Sections(p)| ==> Contains(r, Sections(p)[k])
  {
    var xs := Sections(p);
    var r := Join(NonEmpty(xs), BlockSep);
    NonEmptyEmpty(xs);
    JoinOfNonEmptyIsEmpty(NonEmpty(xs));
    forall k | 0 <= k < |xs| ensures Contains(r, xs[k]) {
      if xs[k] == "" {
        assert StartsWith(r, xs[k]);
      } else {
        var j := NonEmptyKeeps(xs, k);
        JoinContainsElement(NonEmpty(xs), BlockSep, j);
      }
    }
    r
  }

  lemma {:induction false} NonEmptyEmpty(xs: seq<string>)
    ensures NonEmpty(xs) == [] <==> forall k :: 0 <= k < |xs| ==> xs[k] == ""
  {
    if xs != [] {
      NonEmptyEmpty(xs[1..]);
      if xs[0] == "" {
        assert (forall k :: 0 <= k < |xs| ==> xs[k] == "") <==> (forall k :: 0 <= k < |xs[1..]| ==> xs[1..][k] == "") by {
          assert forall k :: 1 <= k < |xs| ==> xs[k] == xs[1..][k - 1];
        }
      }
    }
  }

  lemma {:induction false} NonEmptyKeeps(xs: seq<string>, k: nat) returns (j: nat)
    requires k < |xs| && xs[k] != ""
    ensures j < |NonEmpty(xs)| && NonEmpty(xs)[j] == xs[k]
  {
    if k == 0 {
      j := 0;
    } else {
      var i := NonEmptyKeeps(xs[1..], k - 1);
      j := if xs[0] == "" then i else i + 1;
    }
  }

  lemma JoinOfNonEmptyIsEmpty(xs: seq<string>)
    requires forall k :: 0 <= k < |xs| ==> xs[k] != ""
    ensures Join(xs, BlockSep) == "" <==> xs == []
  {
    if |xs| > 1 {
      assert |Join(xs, BlockSep)| >= |xs[0]|;
    }
  }

  /** The rendered text splits back into the non-empty sections, in order, as
      long as no stored fragment holds a blank line. */
  lemma RenderSplits(p: Parts)
    requires PartsTrimmed(p)
    requires forall k :: 0 <= k < |Sections(p)| ==> !Contains(Sections(p)[k], BlockSep)
    requires exists k :: 0 <= k < |Sections(p)| && Sections(p)[k] != ""
    ensures SplitOn(Render(p), BlockSep) == NonEmpty(Sections(p))
  {
    var xs := Sections(p);
    SectionsTrimmed(p);
    NonEmptyEmpty(xs);
    NonEmptyElements(xs);
    forall k | 0 <= k < |NonEmpty(xs)| ensures IsBlock(NonEmpty(xs)[k]) {
      TrimmedIsBlock(NonEmpty(xs)[k]);
    }
    SplitJoinBlocks(NonEmpty(xs));
  }

  lemma SectionsTrimmed(p: Parts)
    requires PartsTrimmed(p)
    ensures AllTrimmed(Sections(p))
  {
  }

  lemma {:induction false} NonEmptyElements(xs: seq<string>)
    ensures forall k :: 0 <= k < |NonEmpty(xs)| ==> NonEmpty(xs)[k] in xs
  {
    if xs != [] {
      NonEmptyElements(xs[1..]);
      assert forall x :: x in xs[1..] ==> x in xs;
    }
  }

  /** `SchemaBuilder`: the eight private lists, updated in place; every add method
      returns the builder itself for chaining. */
  class SchemaBuilder {
    var scalars: seq<string>
    var enums: seq<string>
    var interfaces: seq<string>
    var types: seq<string>
    var inputs: seq<string>
    var unions: seq<string>
    var directives: seq<string>
    var schema: Option<string>

    function State(): Parts
      reads this
    {
      Parts(scalars, enums, interfaces, types, inputs, unions, directives, schema)
    }

    /** Only cleaned fragments are ever stored. */
    predicate Valid()
      reads this
    {
      PartsTrimmed(State())
    }

    constructor()
      ensures State() == NoParts && Valid()
    {
      scalars, enums, interfaces, types := [], [], [], [];
      inputs, unions, directives, schema := [], [], [], None;
    }

    /** `SchemaBuilder.create()`. */
    static method Create() returns (b: SchemaBuilder)
      ensures fresh(b) && b.State() == NoParts && b.Valid()
    {
      b := new SchemaBuilder();
    }

    method AddScalar(def: string) returns (self: SchemaBuilder)
      requires Valid()
      modifies this
      ensures self == this && Valid()
      ensures State() == File(old(State()), Scalar, CleanTypeDef(def))
    {
      var cleaned := CleanTypeDef(def);
      FileTrimmed(State(), Scalar, cleaned);
      Put(Scalar, cleaned);
      self := this;
    }

    method AddEnum(def: string) returns (self: SchemaBuilder)
      requires Valid()
      modifies this
      ensures self == this && Valid()
      ensures State() == File(old(State()), Enum, CleanTypeDef(def))
    {
      var cleaned := CleanTypeDef(def);
      FileTrimmed(State(), Enum, cleaned);
      Put(Enum, cleaned);
      self := this;
    }

    method AddInterface(def: string) returns (self: SchemaBuilder)
      requires Valid()
      modifies this
      ensures self == this && Valid()
      ensures State() == File(old(State()), Interface, CleanTypeDef(def))
    {
      var cleaned := CleanTypeDef(def);
      FileTrimmed(State(), Interface, cleaned);
      Put(Interface, cleaned);
      self := this;
    }

    method AddType(def: string) returns (self: SchemaBuilder)
      requires Valid()
      modifies this
      ensures self == this && Valid()
      ensures State() == File(old(State()), Type, CleanTypeDef(def))
    {
      var cleaned := CleanTypeDef(def);
      FileTrimmed(State(), Type, cleaned);
      Put(Type, cleaned);
      self := this;
    }

    method AddInput(def: string) returns (self: SchemaBuilder)
      requires Valid()
      modifies this
      ensures self == this && Valid()
      ensures State() == File(old(State()), Input, CleanTypeDef(def))
    {
      var cleaned := CleanTypeDef(def);
      FileTrimmed(State(), Input, cleaned);
      Put(Input, cleaned);
      self := this;
    }

    method AddUnion(def: string) returns (self: SchemaBuilder)
      requires Valid()
      modifies this
      ensures self == this && Valid()
      ensures State() == File(old(State()), Union, CleanTypeDef(def))
    {
      var cleaned := CleanTypeDef(def);
      FileTrimmed(State(), Union, cleaned);
      Put(Union, cleaned);
      self := this;
    }

    method AddDirective(def: string) returns (self: SchemaBuilder)
      requires Valid()
      modifies this
      ensures self == this && Valid()
      ensures State() == File(old(State()), Directive, CleanTypeDef(def))
    {
      var cleaned := CleanTypeDef(def);
      FileTrimmed(State(), Directive, cleaned);
      Put(Directive, cleaned);
      self := this;
    }

    /** A later schema definition replaces an earlier one. */
    method SetSchema(def: string) returns (self: SchemaBuilder)
      requires Valid()
      modifies this
      ensures self == this && Valid()
      ensures State() == File(old(State()), SchemaDef, CleanTypeDef(def))
    {
      var cleaned := CleanTypeDef(def);
      FileTrimmed(State(), SchemaDef, cleaned);
      Put(SchemaDef, cleaned);
      self := this;
    }

    /** The push (or, for the schema definition, the assignment) one branch of
        `addMultiple` performs. */
    method Put(c: Category, cleaned: string)
      modifies this
      ensures State() == File(old(State()), c, cleaned)
    {
      match c
      case Scalar => scalars := scalars + [cleaned];
      case Enum => enums := enums + [cleaned];
      case Interface => interfaces := interfaces + [cleaned];
      case Input => inputs := inputs + [cleaned];
      case Union => unions := unions + [cleaned];
      case Directive => directives := directives + [cleaned];
      case SchemaDef => schema := Some(cleaned);
      case Type => types := types + [cleaned];
    }

    /** `addMultiple(defs)`: each fragment is cleaned, detected and filed in turn. */
    method AddMultiple(defs: seq<string>) returns (self: SchemaBuilder)
      requires Valid()
      modifies this
      ensures self == this && Valid()
      ensures State() == FileAll(old(State()), CleanAll(defs))
    {
      ghost var xs := CleanAll(defs);
      for i := 0 to |defs|
        invariant State() == FileAll(old(State()), xs[..i])
        invariant Valid()
      {
        var cleaned := CleanTypeDef(defs[i]);
        var c := Classify(cleaned);
        FileTrimmed(State(), c, cleaned);
        FileAllStep(old(State()), xs, i);
        Put(c, cleaned);
      }
      assert xs[..|defs|] == xs;
      self := this;
    }

    /** `build()`. */
    function Build(): (r: string)
      reads this
      ensures r == Render(State())
    {
      Join(NonEmpty(Sections(State())), BlockSep)
    }

    /** `reset()`: every list empties and the schema definition goes. */
    method Reset() returns (self: SchemaBuilder)
      modifies this
      ensures self == this && Valid()
      ensures State() == NoParts
    {
      scalars, enums, interfaces, types := [], [], [], [];
      inputs, unions, directives, schema := [], [], [], None;
      self := this;
    }
  }

  /** A fresh builder renders nothing, and so does one that was reset. */
  method BuildAfterReset(b: SchemaBuilder, def: string) returns (before: string, after: string)
    requires b.Valid()
    modifies b
    ensures before == "" ==> forall k :: 0 <= k < |Sections(old(b.State()))| ==> Sections(old(b.State()))[k] == ""
    ensures after == ""
  {
    before := b.Build();
    var _ := b.Reset();
    after := b.Build();
  }

  /** Whatever order the add calls come in, the rendered text lists scalars,
      enums, interfaces and types in that order. */
  lemma OrderOfSections(s: string, e: string, i: string, t: string)
    requires s != "" && e != "" && i != "" && t != ""
    requires IsTrimmed(s) && IsTrimmed(e) && IsTrimmed(i) && IsTrimmed(t)
    requires !Contains(s, BlockSep) && !Contains(e, BlockSep) && !Contains(i, BlockSep) && !Contains(t, BlockSep)
    ensures var p := File(File(File(File(NoParts, Type, t), Interface, i), Enum, e), Scalar, s);
            SplitOn(Render(p), BlockSep) == [s, e, i, t]
  {
    var p := File(File(File(File(NoParts, Type, t), Interface, i), Enum, e), Scalar, s);
    assert p == NoParts.(scalars := [s], enums := [e], interfaces := [i], types := [t]);
    assert Sections(p) == [s, e, i, t];
    NonEmptyOfNonEmpty([s, e, i, t]);
    RenderSplits(p);
  }

  /** The same through the class: a builder fed type, interface, enum and scalar
      (in that order) builds a text whose blank-line pieces are scalar, enum,
      interface and type. */
  method BuildOrder(s: string, e: string, i: string, t: string) returns (pieces: seq<string>)
    requires CleanTypeDef(s) != "" && CleanTypeDef(e) != "" && CleanTypeDef(i) != "" && CleanTypeDef(t) != ""
    requires !Contains(CleanTypeDef(s), BlockSep) && !Contains(CleanTypeDef(e), BlockSep)
    requires !Contains(CleanTypeDef(i), BlockSep) && !Contains(CleanTypeDef(t), BlockSep)
    ensures pieces == [CleanTypeDef(s), CleanTypeDef(e), CleanTypeDef(i), CleanTypeDef(t)]
  {
    var b := new SchemaBuilder();
    var _ := b.AddType(t);
    var _ := b.AddInterface(i);
    var _ := b.AddEnum(e);
    var _ := b.AddScalar(s);
    OrderOfSections(CleanTypeDef(s), CleanTypeDef(e), CleanTypeDef(i), CleanTypeDef(t));
    pieces := SplitOn(b.Build(), BlockSep);
  }

  lemma {:induction false} NonEmptyOfNonEmpty(xs: seq<string>)
    requires forall k :: 0 <= k < |xs| ==> xs[k] != ""
    ensures NonEmpty(xs) == xs
  {
    if xs != [] {
      NonEmptyOfNonEmpty(xs[1..]);
    }
  }

  /** Adds to two different lists commute: the builder's state does not depend
      on which call came first. */
  lemma FileCommutes(p: Parts, c1: Category, d1: string, c2: Category, d2: string)
    requires c1 != c2
    ensures File(File(p, c1, d1), c2, d2) == File(File(p, c2, d2), c1, d1)
  {
  }
}
