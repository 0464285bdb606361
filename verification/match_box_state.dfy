/** The match box's state: the fields loaded for a document type, the working
    copy `temp` that edits change, the saved state the server sends back, and
    what the render callback derives from them. */
module MatchBoxState {
  import opened Js
  import opened Seqs
  import AggsState
  import QuickSearch

  // ---------------------------------------------------------------------------
  // Active fields

  predicate IsActive(x: Object)
  {
    Truthy(Prop(x, "isActive"))
  }

  /** `...decorateFieldWithColumnsState({columnsState, field})`: the call names
      neither `tableConfigs` nor `fieldName`, so it returns `null`, and
      spreading `null` adds nothing. */
  function ColumnsDecoration(): (r: Object)
    ensures r == map[]
  {
    SpreadOption(QuickSearch.DecorateFieldWithColumnsState(None, None))
  }

  /** Spreading an object, or `null`. */
  function SpreadOption(d: Option<Object>): Object
  {
    if d.Some? then d.value else map[]
  }

  /** `{field: y, entityName: x.displayName, ...decoration}`. */
  function SearchField(y: Value, displayName: Value): (r: Object)
    ensures r == map["field" := y, "entityName" := displayName]
  {
    map["field" := y, "entityName" := displayName] + ColumnsDecoration()
  }

  /** One active field as `getActiveFields` returns it: the entry, with
      `keyFieldName` wrapped as `{fieldName}` and each search field given its
      entity name. `searchFields.map` throws unless `searchFields` is an array. */
  function ActiveField(x: Object): (r: Result<Object>)
    ensures r.Ok? <==> Prop(x, "searchFields").Arr?
    ensures r.Ok? ==> (
      "keyFieldName" in r.value && r.value["keyFieldName"] == Obj(map["fieldName" := Prop(x, "keyFieldName")]))
    ensures r.Ok? ==> (
      var ys := Prop(x, "searchFields").items;
      "searchFields" in r.value
      && r.value["searchFields"] == Arr(seq(|ys|, i requires 0 <= i < |ys| =>
           Obj(map["field" := ys[i], "entityName" := Prop(x, "displayName")]))))
    ensures r.Ok? ==> forall k :: k in x && k != "keyFieldName" && k != "searchFields" ==> k in r.value && r.value[k] == x[k]
  {
    var fields := Prop(x, "searchFields");
    if !fields.Arr? then Err(TypeError("searchFields.map is not a function"))
    else
      var ys := fields.items;
      var key := map["fieldName" := Prop(x, "keyFieldName")] + ColumnsDecoration();
      assert key == map["fieldName" := Prop(x, "keyFieldName")];
      var search := seq(|ys|, i requires 0 <= i < |ys| => Obj(SearchField(ys[i], Prop(x, "displayName"))));
      Ok(x["keyFieldName" := Obj(key)]["searchFields" := Arr(search)])
  }

  /** `getActiveFields()`: the active entries of `temp`, in order, decorated. */
  function ActiveFields(temp: seq<Object>): (r: Result<seq<Object>>)
    ensures r.Ok? <==> forall i :: 0 <= i < |temp| && IsActive(temp[i]) ==> Prop(temp[i], "searchFields").Arr?
  {
    MapResult(Filter(temp, IsActive), ActiveField)
  }

  /** The active fields are exactly the active entries of `temp`, in order,
      each keeping its `field` and `isActive`. */
  lemma ActiveFieldsAreActiveEntries(temp: seq<Object>)
    requires ActiveFields(temp).Ok?
    ensures var r := ActiveFields(temp).value;
      var active := Filter(temp, IsActive);
      |r| == |active| && IsSubsequence(active, temp)
      && forall i :: 0 <= i < |r| ==> IsActive(r[i]) && Prop(r[i], "field") == Prop(active[i], "field")
  {
    FilterIsSubsequence(temp, IsActive);
    var active := Filter(temp, IsActive);
    var r := ActiveFields(temp).value;
    forall i | 0 <= i < |r|
      ensures IsActive(r[i]) && Prop(r[i], "field") == Prop(active[i], "field")
    {
      assert ActiveField(active[i]) == Ok(r[i]);
      assert IsActive(active[i]);
    }
  }

  /** An entry whose `searchFields` is not an array throws only if it is
      active: inactive entries are never mapped. */
  lemma InactiveEntriesAreSkipped(temp: seq<Object>, x: Object)
    requires !IsActive(x)
    ensures ActiveFields(temp + [x]).Ok? <==> ActiveFields(temp).Ok?
  {
    var t := temp + [x];
    assert forall i :: 0 <= i < |temp| ==> t[i] == temp[i];
    assert t[|temp|] == x;
  }

  /** `state.extended?.find((x) => x.primaryKey)`. */
  function PrimaryKeyField(extended: seq<Object>): (r: Option<Object>)
    ensures r.Some? ==> Truthy(Prop(r.value, "primaryKey")) && r.value in extended
    ensures r.None? <==> forall i :: 0 <= i < |extended| ==> !Truthy(Prop(extended[i], "primaryKey"))
  {
    Find(extended, (x: Object) => Truthy(Prop(x, "primaryKey")))
  }

  /** The first entry with a truthy `primaryKey` wins over later ones. */
  lemma PrimaryKeyIsFirst(extended: seq<Object>, i: nat)
    requires i < |extended| && Truthy(Prop(extended[i], "primaryKey"))
    requires forall j :: 0 <= j < i ==> !Truthy(Prop(extended[j], "primaryKey"))
    ensures PrimaryKeyField(extended) == Some(extended[i])
  {
    var p := (x: Object) => Truthy(Prop(x, "primaryKey"));
    assert p(extended[i]);
    assert FindIndex(extended, p) == i;
  }

  // ---------------------------------------------------------------------------
  // Updating an entry

  predicate HasField(field: string, x: Object)
  {
    Prop(x, "field") == Str(field)
  }

  /** An update replaces the first entry of the field, and only it, with `key`
      set to `value`: entries of other fields and later entries of the same
      field are left as they were. */
  lemma UpdateChangesOnlyTheMatch(temp: seq<Object>, field: string, key: string, value: Value, j: nat)
    requires j < |temp|
    ensures var r := ReplaceFirst(temp, x => HasField(field, x), x => AggsState.SetKey(key, value, x));
      var first := HasField(field, temp[j]) && (forall k :: 0 <= k < j ==> !HasField(field, temp[k]));
      |r| == |temp| && (first ==> r[j] == AggsState.SetKey(key, value, temp[j])) && (!first ==> r[j] == temp[j])
  {
    var p := x => HasField(field, x);
    if HasField(field, temp[j]) && (forall k :: 0 <= k < j ==> !HasField(field, temp[k])) {
      assert p(temp[j]);
      assert FindIndex(temp, p) == j;
    }
  }

  /** An update of a field no entry has changes no entry: the `-1` index names
      a property of the array, not an element. */
  lemma UpdateWithoutMatch(temp: seq<Object>, field: string, key: string, value: Value)
    requires forall k :: 0 <= k < |temp| ==> !HasField(field, temp[k])
    ensures ReplaceFirst(temp, x => HasField(field, x), x => AggsState.SetKey(key, value, x)) == temp
  {
    ReplaceFirstNoMatch(temp, x => HasField(field, x), x => AggsState.SetKey(key, value, x));
  }

  // ---------------------------------------------------------------------------
  // The state

  /** What the fetch destructures from `data[docType]`. */
  datatype DocState = DocState(extended: seq<Object>, matchBoxState: seq<Object>, columnsState: Value)

  /** The component's state: `extended`, `columnsState`, the saved
      `matchBoxState`, the working copy `temp`, and the last fetch error. */
  class MatchBoxStore {
    var extended: seq<Object>
    var columnsState: Value
    var matchBoxState: seq<Object>
    var temp: seq<Object>
    var err: Option<Error>

    constructor()
      ensures extended == [] && columnsState == Obj(map[]) && matchBoxState == [] && temp == [] && err == None
    {
      extended := [];
      columnsState := Obj(map[]);
      matchBoxState := [];
      temp := [];
      err := None;
    }

    /** The fetch's `setState`: on success everything is replaced and `temp`
        starts as the fetched state; a failure only records the error. The
        result is the value the completion evidently means to pass: the
        `activeFields` of the fetched state on success, and nothing on failure,
        where the callback is never called. As written, the completion passes
        the active fields of the `temp` it captured before the fetch instead
        (`CompletionActiveFieldsAsWritten`). */
    method Fetched(response: Result<DocState>) returns (activeFields: Option<Result<seq<Object>>>)
      modifies this
      ensures response.Ok? ==> (
        extended == response.value.extended && columnsState == response.value.columnsState
        && matchBoxState == response.value.matchBoxState && temp == response.value.matchBoxState && err == None)
      ensures response.Ok? ==> activeFields == Some(ActiveFields(response.value.matchBoxState))
      ensures response.Err? ==> (
        err == Some(response.error) && extended == old(extended)
        && columnsState == old(columnsState) && matchBoxState == old(matchBoxState) && temp == old(temp))
      ensures response.Err? ==> activeFields.None?
    {
      if response.Err? {
        err := Some(response.error);
        activeFields := None;
      } else {
        extended := response.value.extended;
        columnsState := response.value.columnsState;
        matchBoxState := response.value.matchBoxState;
        temp := response.value.matchBoxState;
        err := None;
        activeFields := Some(ActiveFields(temp));
      }
    }

    /** `update({field, key, value})`: the working copy changes at the first
        entry of the field; the saved state does not. The result is the list
        handed to `save`. */
    method Update(field: string, key: string, value: Value) returns (toSave: seq<Object>)
      modifies this
      ensures temp == ReplaceFirst(old(temp), x => HasField(field, x), x => AggsState.SetKey(key, value, x))
      ensures toSave == temp
      ensures matchBoxState == old(matchBoxState) && extended == old(extended)
        && columnsState == old(columnsState) && err == old(err)
    {
      var index := FindIndex(temp, x => HasField(field, x));
      if index >= 0 {
        temp := temp[index := AggsState.SetKey(key, value, temp[index])];
      }
      toSave := temp;
    }

    /** The save's `setState`: the server's state becomes both the saved state
        and the working copy. */
    method Saved(state: seq<Object>)
      modifies this
      ensures matchBoxState == state && temp == state
      ensures extended == old(extended) && columnsState == old(columnsState) && err == old(err)
    {
      matchBoxState := state;
      temp := state;
    }
  }

  // ---------------------------------------------------------------------------
  // The completion callback, as written

  /** As written, the completion callback filters the `temp` captured when the
      debounced fetch was created, not the state just fetched; `|| []` turns a
      missing list into an empty one. */
  function CompletionActiveFieldsAsWritten(capturedTemp: Option<seq<Object>>, fetched: DocState): (r: Result<seq<Object>>)
    ensures capturedTemp.None? ==> r == Ok([])
    ensures capturedTemp.Some? ==> r == ActiveFields(capturedTemp.value)
  {
    if capturedTemp.None? then Ok([]) else ActiveFields(capturedTemp.value)
  }

  /** As written, the callback's value does not depend on the fetched state at all. */
  lemma CompletionIgnoresFetched(capturedTemp: Option<seq<Object>>, fetched: DocState, other: DocState)
    ensures CompletionActiveFieldsAsWritten(capturedTemp, fetched)
            == CompletionActiveFieldsAsWritten(capturedTemp, other)
  {
  }

  /** On the first load the captured `temp` is the initial `[]`, so the callback
      reports no active field even when the fetched state has one. */
  lemma InitialLoadReportsNoActiveFields(x: Object, fetched: DocState)
    requires IsActive(x) && Prop(x, "searchFields").Arr? && fetched.matchBoxState == [x]
    ensures CompletionActiveFieldsAsWritten(Some([]), fetched) == Ok([])
    ensures ActiveFields(fetched.matchBoxState).Ok? && |ActiveFields(fetched.matchBoxState).value| == 1
  {
    assert Filter([x], IsActive) == [x];
  }
}
