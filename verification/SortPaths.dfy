/** validator.go's validateSortPath: a public sort path to the column it orders by,
    through to-one relationships only. */
module SortPaths {
  import opened Common
  import opened Strings
  import opened Schema
  import opened SortParameter

  // validatedOrder with its field; joinPath and table are "" on the model's own columns.
  datatype SortOrder = SortOrder(field: Field, desc: bool, joinPath: string, table: string)

  // The model that to-one relationships lead to, and their Go names on the way.
  function FollowOnes(model: Model, path: seq<string>): Result<(Model, seq<string>)>
    decreases |path|
  {
    if path == [] then Ok((model, []))
    else if path[0] !in model.relationships || model.relationships[path[0]].cardinality != One
    then Err(InvalidRelationship)
    else
      var rest :- FollowOnes(model.relationships[path[0]].target, path[1..]);
      Ok((rest.0, [model.relationships[path[0]].goName] + rest.1))
  }

  function ResolveSort(model: Model, term: SortTerm, maxPathDepth: int): Result<SortOrder> {
    var path := ValidPath(term.field);
    if path.None? then Err(InvalidParameter)
    else if |path.value| > maxPathDepth then Err(LimitExceeded)
    else
      var last := |path.value| - 1;
      var reached :- FollowOnes(model, path.value[..last]);
      var name := path.value[last];
      if name !in reached.0.fields then Err(UnknownField)
      else if !reached.0.fields[name].sortable then Err(NotSortable)
      else Ok(SortOrder(reached.0.fields[name], term.desc, JoinWith(".", reached.1), JoinWith("__", reached.1)))
  }

  function WithNames(front: seq<string>, rest: Result<(Model, seq<string>)>): Result<(Model, seq<string>)> {
    if rest.Err? then rest else Ok((rest.value.0, front + rest.value.1))
  }

  method ValidateSortPath(model: Model, term: SortTerm, maxPathDepth: int) returns (result: Result<SortOrder>)
    ensures result == ResolveSort(model, term, maxPathDepth)
  {
    hide JoinWith, ValidPath;
    var valid := ValidPath(term.field);
    if valid.None? {
      return Err(InvalidParameter);
    }
    var segments := valid.value;
    assert segments != [] by { ValidPathNonEmpty(term.field); }
    if |segments| > maxPathDepth {
      return Err(LimitExceeded);
    }
    var current := model;
    var goNames: seq<string> := [];
    var last := |segments| - 1;
    ghost var spec := FollowOnes(model, segments[..last]);
    assert segments[0..last] == segments[..last] && WithNames([], spec) == spec by {
      assert spec.Ok? ==> [] + spec.value.1 == spec.value.1;
    }
    for index := 0 to last
      invariant spec == WithNames(goNames, FollowOnes(current, segments[index..last]))
    {
      ghost var pending := segments[index..last];
      assert pending[0] == segments[index] && pending[1..] == segments[index + 1..last];
      if segments[index] !in current.relationships {
        return Err(InvalidRelationship);
      }
      var relationship := current.relationships[segments[index]];
      if relationship.cardinality != One {
        return Err(InvalidRelationship);
      }
      NamesStep(goNames, relationship.goName, FollowOnes(relationship.target, segments[index + 1..last]));
      goNames := goNames + [relationship.goName];
      current := relationship.target;
    }
    assert segments[last..last] == [] && goNames + [] == goNames;
    if segments[last] !in current.fields {
      return Err(UnknownField);
    }
    var field := current.fields[segments[last]];
    if !field.sortable {
      return Err(NotSortable);
    }
    return Ok(SortOrder(field, term.desc, JoinWith(".", goNames), JoinWith("__", goNames)));
  }

  lemma NamesStep(front: seq<string>, name: string, rest: Result<(Model, seq<string>)>)
    ensures WithNames(front + [name], rest) == WithNames(front, WithNames([name], rest))
  {
    if rest.Ok? {
      assert (front + [name]) + rest.value.1 == front + ([name] + rest.value.1);
    }
  }

  lemma ValidPathNonEmpty(path: string)
    ensures ValidPath(path).Some? ==> ValidPath(path).value != []
  {}
}
