/** `replaceBy(arr1, arr2, operator)`: each element of the first list is replaced
    by the first element of the second list that `operator` pairs it with. */
module ReplaceBy {
  import opened Js
  import opened Seqs

  /** `arr || []` for a list that may be `null` or `undefined`. */
  function OrEmpty<T>(arr: Option<seq<T>>): (r: seq<T>)
    ensures arr.None? ==> r == []
    ensures arr.Some? ==> r == arr.value
  {
    if arr.Some? then arr.value else []
  }

  /** `cArr2.find((y) => operator(x, y)) || x`: a match that is falsy (per
      `truthy`) is passed over in favour of `x`. */
  function Pick<T>(x: T, others: seq<T>, operator: (T, T) -> bool, truthy: T -> bool): T
  {
    var found := Find(others, y => operator(x, y));
    if found.Some? && truthy(found.value) then found.value else x
  }

  function ReplaceBy<T(==)>(arr1: Option<seq<T>>, arr2: Option<seq<T>>, operator: (T, T) -> bool,
                            truthy: T -> bool): (r: seq<T>)
    ensures |r| == |OrEmpty(arr1)|
    ensures forall i :: 0 <= i < |r| ==>
      r[i] == OrEmpty(arr1)[i] || (r[i] in OrEmpty(arr2) && operator(OrEmpty(arr1)[i], r[i]))
  {
    var xs := OrEmpty(arr1);
    var ys := OrEmpty(arr2);
    seq(|xs|, i requires 0 <= i < |xs| => Pick(xs[i], ys, operator, truthy))
  }

  /** Position `i` holds the first element of the second list that `operator`
      pairs with the `i`-th element of the first, when that element is truthy. */
  lemma ReplaceByFirstMatch<T>(arr1: Option<seq<T>>, arr2: Option<seq<T>>, operator: (T, T) -> bool,
                                   truthy: T -> bool, i: nat, j: nat)
    requires i < |OrEmpty(arr1)| && j < |OrEmpty(arr2)|
    requires operator(OrEmpty(arr1)[i], OrEmpty(arr2)[j])
    requires forall k :: 0 <= k < j ==> !operator(OrEmpty(arr1)[i], OrEmpty(arr2)[k])
    ensures truthy(OrEmpty(arr2)[j]) ==> ReplaceBy(arr1, arr2, operator, truthy)[i] == OrEmpty(arr2)[j]
    ensures !truthy(OrEmpty(arr2)[j]) ==> ReplaceBy(arr1, arr2, operator, truthy)[i] == OrEmpty(arr1)[i]
  {
    var x := OrEmpty(arr1)[i];
    var ys := OrEmpty(arr2);
    var p := y => operator(x, y);
    assert p(ys[j]);
    var k := FindIndex(ys, p);
    assert k == j;
  }

  /** An element that `operator` pairs with nothing in the second list stays. */
  lemma ReplaceByNoMatch<T>(arr1: Option<seq<T>>, arr2: Option<seq<T>>, operator: (T, T) -> bool,
                                truthy: T -> bool, i: nat)
    requires i < |OrEmpty(arr1)|
    requires forall k :: 0 <= k < |OrEmpty(arr2)| ==> !operator(OrEmpty(arr1)[i], OrEmpty(arr2)[k])
    ensures ReplaceBy(arr1, arr2, operator, truthy)[i] == OrEmpty(arr1)[i]
  {
    var x := OrEmpty(arr1)[i];
    var ys := OrEmpty(arr2);
    var p := y => operator(x, y);
    assert forall k :: 0 <= k < |ys| ==> !p(ys[k]);
  }

  /** With a missing or empty second list the first comes back unchanged. */
  lemma ReplaceByNothing<T>(arr1: Option<seq<T>>, arr2: Option<seq<T>>, operator: (T, T) -> bool,
                                truthy: T -> bool)
    requires OrEmpty(arr2) == []
    ensures ReplaceBy(arr1, arr2, operator, truthy) == OrEmpty(arr1)
  {
    var r := ReplaceBy(arr1, arr2, operator, truthy);
    forall i | 0 <= i < |r|
      ensures r[i] == OrEmpty(arr1)[i]
    {
      ReplaceByNoMatch(arr1, arr2, operator, truthy, i);
    }
  }
}
