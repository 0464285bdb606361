/** Sequence helpers shared by the models: JavaScript's `find`, `findIndex`,
    `filter`, and the subsequence relation used to state order preservation. */
module Seqs {
  import opened Js

  /** `xs.findIndex(p)`: the first index satisfying `p`, or -1. */
  function FindIndex<T>(xs: seq<T>, p: T -> bool): (r: int)
    ensures -1 <= r < |xs|
    ensures r >= 0 ==> p(xs[r]) && forall j :: 0 <= j < r ==> !p(xs[j])
    ensures r == -1 <==> forall j :: 0 <= j < |xs| ==> !p(xs[j])
  {
    if xs == [] then -1
    else if p(xs[0]) then 0
    else
      var r := FindIndex(xs[1..], p);
      if r == -1 then -1 else r + 1
  }

  /** `xs.find(p)`: the first element satisfying `p`, if any. */
  function Find<T>(xs: seq<T>, p: T -> bool): (r: Option<T>)
    ensures r.None? <==> forall j :: 0 <= j < |xs| ==> !p(xs[j])
    ensures r.Some? ==> exists i :: 0 <= i < |xs| && xs[i] == r.value && p(r.value) && forall j :: 0 <= j < i ==> !p(xs[j])
  {
    var i := FindIndex(xs, p);
    if i == -1 then None else Some(xs[i])
  }

  /** `xs.filter(p)`. */
  function Filter<T>(xs: seq<T>, p: T -> bool): (r: seq<T>)
    ensures |r| <= |xs|
    ensures forall i :: 0 <= i < |r| ==> p(r[i]) && r[i] in xs
    ensures forall i :: 0 <= i < |xs| && p(xs[i]) ==> xs[i] in r
  {
    if xs == [] then []
    else if p(xs[0]) then [xs[0]] + Filter(xs[1..], p)
    else Filter(xs[1..], p)
  }

  /** `xs.map(f)` for an `f` that may throw: the first element that throws
      stops the map. */
  function MapResult<A, B>(xs: seq<A>, f: A -> Result<B>): (r: Result<seq<B>>)
    ensures r.Ok? ==> |r.value| == |xs| && forall i :: 0 <= i < |xs| ==> f(xs[i]) == Ok(r.value[i])
    ensures r.Ok? <==> forall i :: 0 <= i < |xs| ==> f(xs[i]).Ok?
    decreases |xs|
  {
    if xs == [] then Ok([])
    else
      assert forall i :: 0 < i < |xs| ==> xs[i] == xs[1..][i - 1];
      match f(xs[0])
      case Err(e) => Err(e)
      case Ok(a) =>
        match MapResult(xs[1..], f)
        case Err(e) => Err(e)
        case Ok(rest) => Ok([a] + rest)
  }

  /** Small facts about concatenation and slicing, kept as lemmas so that the
      proofs that use them need no sequence extensionality of their own. */
  lemma SplitAt<T>(xs: seq<T>, i: nat)
    requires i < |xs|
    ensures xs == xs[..i] + ([xs[i]] + xs[i + 1..])
  {
    assert xs == xs[..i] + xs[i..];
    assert xs[i..] == [xs[i]] + xs[i + 1..];
  }

  lemma MiddleSlice<T>(before: seq<T>, block: seq<T>, after: seq<T>)
    ensures (before + (block + after))[|before|..|before| + |block|] == block
  {
  }

  lemma IndexAppend<T>(a: seq<T>, b: seq<T>, k: nat)
    requires k < |a| + |b|
    ensures (a + b)[k] == if k < |a| then a[k] else b[k - |a|]
  {
  }

  /** `a` can be obtained from `b` by deleting elements: `b` keeps `a`'s order. */
  predicate IsSubsequence<T(==)>(a: seq<T>, b: seq<T>)
    decreases |b|
  {
    if a == [] then true
    else if b == [] then false
    else if a[0] == b[0] then IsSubsequence(a[1..], b[1..])
    else IsSubsequence(a, b[1..])
  }

  lemma {:induction false} SubsequenceSkip<T>(a: seq<T>, x: T, b: seq<T>)
    requires IsSubsequence(a, b)
    ensures IsSubsequence(a, [x] + b)
    decreases |b|, 1
  {
    if a != [] && a[0] == x {
      assert ([x] + b)[1..] == b;
      SubsequenceDropHead(a, b);
    }
  }

  lemma {:induction false} SubsequenceDropHead<T>(a: seq<T>, b: seq<T>)
    requires a != [] && IsSubsequence(a, b)
    ensures IsSubsequence(a[1..], b)
    decreases |b|, 0
  {
    if a[0] == b[0] {
      if a[1..] != [] {
        SubsequenceSkip(a[1..], b[0], b[1..]);
        assert [b[0]] + b[1..] == b;
      }
    } else {
      SubsequenceDropHead(a, b[1..]);
      if a[1..] != [] {
        SubsequenceSkip(a[1..], b[0], b[1..]);
        assert [b[0]] + b[1..] == b;
      }
    }
  }

  /** Extending `b` at the end, and optionally `a` by the same element, keeps
      the subsequence relation. */
  lemma {:induction false} SubsequenceSnoc<T>(a: seq<T>, b: seq<T>, x: T, keep: bool)
    requires IsSubsequence(a, b)
    ensures IsSubsequence(a + (if keep then [x] else []), b + [x])
    decreases |b|
  {
    var added := if keep then [x] else [];
    if a == [] {
      assert a + added == added;
      if keep && b != [] && b[0] != x {
        SubsequenceSnoc(a, b[1..], x, keep);
        assert (b + [x])[1..] == b[1..] + [x];
      }
    } else {
      assert (a + added)[0] == a[0] && (a + added)[1..] == a[1..] + added;
      assert (b + [x])[0] == b[0] && (b + [x])[1..] == b[1..] + [x];
      if a[0] == b[0] {
        SubsequenceSnoc(a[1..], b[1..], x, keep);
      } else {
        SubsequenceSnoc(a, b[1..], x, keep);
      }
    }
  }

  /** Adding one element anywhere keeps the others as a subsequence. */
  lemma {:induction false} SubsequenceInsert<T>(a: seq<T>, x: T, b: seq<T>)
    ensures IsSubsequence(a + b, a + [x] + b)
    decreases |a|
  {
    if a == [] {
      assert a + b == b;
      assert a + [x] + b == [x] + b;
      SubsequenceRefl(b);
      SubsequenceSkip(b, x, b);
    } else {
      SubsequenceInsert(a[1..], x, b);
      assert (a + b)[0] == a[0] && (a + [x] + b)[0] == a[0];
      assert (a + b)[1..] == a[1..] + b;
      assert (a + [x] + b)[1..] == a[1..] + [x] + b;
    }
  }

  lemma {:induction false} SubsequenceRefl<T>(a: seq<T>)
    ensures IsSubsequence(a, a)
    decreases |a|
  {
    if a != [] {
      SubsequenceRefl(a[1..]);
    }
  }

  /** The subsequence relation is transitive. */
  lemma {:induction false} SubsequenceTrans<T>(a: seq<T>, b: seq<T>, c: seq<T>)
    requires IsSubsequence(a, b) && IsSubsequence(b, c)
    ensures IsSubsequence(a, c)
    decreases |c|
  {
    if a != [] {
      assert [c[0]] + c[1..] == c;
      if b[0] == c[0] {
        if a[0] == b[0] {
          SubsequenceTrans(a[1..], b[1..], c[1..]);
        } else {
          SubsequenceTrans(a, b[1..], c[1..]);
          SubsequenceSkip(a, c[0], c[1..]);
        }
      } else {
        SubsequenceTrans(a, b, c[1..]);
        SubsequenceSkip(a, c[0], c[1..]);
      }
    }
  }

  lemma {:induction false} FilterIsSubsequence<T>(xs: seq<T>, p: T -> bool)
    ensures IsSubsequence(Filter(xs, p), xs)
  {
    if xs != [] {
      FilterIsSubsequence(xs[1..], p);
      if !p(xs[0]) {
        SubsequenceSkip(Filter(xs[1..], p), xs[0], xs[1..]);
        assert [xs[0]] + xs[1..] == xs;
      }
    }
  }

  /** Filtering distributes over concatenation. */
  lemma {:induction false} FilterAppend<T>(a: seq<T>, b: seq<T>, p: T -> bool)
    ensures Filter(a + b, p) == Filter(a, p) + Filter(b, p)
  {
    if a == [] {
      assert a + b == b;
    } else {
      assert (a + b)[0] == a[0];
      assert (a + b)[1..] == a[1..] + b;
      FilterAppend(a[1..], b, p);
    }
  }

  /** `Object.assign([], xs, {[xs.findIndex(p)]: f(found)})`: the first element
      satisfying `p` is replaced by its image under `f`. With no match the index
      is -1, which names a property of the array and no element of it. */
  function ReplaceFirst<T>(xs: seq<T>, p: T -> bool, f: T -> T): (r: seq<T>)
    ensures |r| == |xs|
    ensures FindIndex(xs, p) >= 0 ==> r[FindIndex(xs, p)] == f(xs[FindIndex(xs, p)])
    ensures forall j :: 0 <= j < |xs| && j != FindIndex(xs, p) ==> r[j] == xs[j]
  {
    var i := FindIndex(xs, p);
    if i == -1 then xs else xs[i := f(xs[i])]
  }

  /** With no element satisfying `p` nothing changes. */
  lemma ReplaceFirstNoMatch<T>(xs: seq<T>, p: T -> bool, f: T -> T)
    requires forall j :: 0 <= j < |xs| ==> !p(xs[j])
    ensures ReplaceFirst(xs, p, f) == xs
  {
  }

  /** Replacing again, with an `f` that keeps the match and is idempotent,
      changes nothing more. */
  lemma ReplaceFirstTwice<T>(xs: seq<T>, p: T -> bool, f: T -> T)
    requires forall x :: p(x) ==> p(f(x)) && f(f(x)) == f(x)
    ensures ReplaceFirst(ReplaceFirst(xs, p, f), p, f) == ReplaceFirst(xs, p, f)
  {
    var i := FindIndex(xs, p);
    var once := ReplaceFirst(xs, p, f);
    if i >= 0 {
      assert p(once[i]);
      assert forall j :: 0 <= j < i ==> once[j] == xs[j];
      assert FindIndex(once, p) == i;
    } else {
      ReplaceFirstNoMatch(xs, p, f);
    }
  }
}
