/** openapi/openapi.go: the flattened field lists of a published description. */
module OpenApi {
  import opened Ast
  import opened Schema
  import opened Description

  datatype FieldPolicy = FieldPolicy(name: string, kind: Kind, nullable: bool, operators: seq<CompareOp>)

  // The filter list carries operators, the sort list does not.
  datatype Purpose = Filtering | Sorting

  predicate Chosen(f: FieldDescription, purpose: Purpose) { if purpose == Sorting then f.sortable else f.filterable }

  function PolicyOf(name: string, f: FieldDescription, purpose: Purpose): FieldPolicy {
    FieldPolicy(name, f.kind, f.nullable, if purpose == Sorting then [] else f.operators)
  }

  // ---- collectFieldPolicies ----

  function FieldPolicies(fields: seq<FieldDescription>, prefix: string, purpose: Purpose): seq<FieldPolicy> {
    if fields == [] then []
    else
      (if Chosen(fields[0], purpose) then [PolicyOf(prefix + fields[0].name, fields[0], purpose)] else [])
      + FieldPolicies(fields[1..], prefix, purpose)
  }

  /** A model's own fields by name, then those behind its to-one relationships by name. */
  function Collected(d: SchemaDescription, prefix: string, purpose: Purpose): seq<FieldPolicy>
    decreases d, 1, 0
  {
    SortKeeps(RELATIONSHIP_NAME, d.relationships);
    FieldPolicies(SortByName(FIELD_NAME, d.fields), prefix, purpose)
    + CollectedBehind(d, SortByName(RELATIONSHIP_NAME, d.relationships), prefix, purpose)
  }

  function CollectedBehind(d: SchemaDescription, relationships: seq<RelationshipDescription>, prefix: string,
                           purpose: Purpose): seq<FieldPolicy>
    requires forall r :: r in relationships ==> r in d.relationships
    decreases d, 0, |relationships|
  {
    if relationships == [] then []
    else
      var r := relationships[0];
      assert r in relationships && r in d.relationships;
      assert exists k :: 0 <= k < |d.relationships| && d.relationships[k] == r;
      (if r.cardinality == One then Collected(r.schema, prefix + r.name + "/", purpose) else [])
      + CollectedBehind(d, relationships[1..], prefix, purpose)
  }

  method CollectFields(fields: seq<FieldDescription>, prefix: string)
    returns (filterFields: seq<FieldPolicy>, sortFields: seq<FieldPolicy>)
    ensures filterFields == FieldPolicies(fields, prefix, Filtering)
    ensures sortFields == FieldPolicies(fields, prefix, Sorting)
  {
    hide PolicyOf, Chosen;
    filterFields, sortFields := [], [];
    assert fields[0..] == fields;
    for i := 0 to |fields|
      invariant filterFields + FieldPolicies(fields[i..], prefix, Filtering) == FieldPolicies(fields, prefix, Filtering)
      invariant sortFields + FieldPolicies(fields[i..], prefix, Sorting) == FieldPolicies(fields, prefix, Sorting)
    {
      assert fields[i..][0] == fields[i] && fields[i..][1..] == fields[i + 1..];
      FieldsChosen(fields[i]);
      if fields[i].filterable {
        filterFields := filterFields + [PolicyOf(prefix + fields[i].name, fields[i], Filtering)];
      }
      if fields[i].sortable {
        sortFields := sortFields + [PolicyOf(prefix + fields[i].name, fields[i], Sorting)];
      }
    }
  }

  /** collectFieldPolicies */
  method CollectFieldPolicies(d: SchemaDescription, prefix: string)
    returns (filterFields: seq<FieldPolicy>, sortFields: seq<FieldPolicy>)
    ensures filterFields == Collected(d, prefix, Filtering)
    ensures sortFields == Collected(d, prefix, Sorting)
    decreases d
  {
    hide FieldPolicies, Collected, CollectedBehind, SortByName;
    filterFields, sortFields := CollectFields(SortByName(FIELD_NAME, d.fields), prefix);
    var relationships := SortByName(RELATIONSHIP_NAME, d.relationships);
    SortKeeps(RELATIONSHIP_NAME, d.relationships);
    CollectedUnfolds(d, prefix, Filtering);
    CollectedUnfolds(d, prefix, Sorting);
    assert relationships[0..] == relationships;
    for i := 0 to |relationships|
      invariant filterFields + CollectedBehind(d, relationships[i..], prefix, Filtering) ==
        Collected(d, prefix, Filtering)
      invariant sortFields + CollectedBehind(d, relationships[i..], prefix, Sorting) == Collected(d, prefix, Sorting)
    {
      ghost var r, rest := relationships[i], relationships[i + 1..];
      assert relationships[i..] == [r] + rest && r in relationships;
      BehindUnfolds(d, r, rest, prefix, Filtering, filterFields);
      BehindUnfolds(d, r, rest, prefix, Sorting, sortFields);
      if relationships[i].cardinality != One {
        continue;
      }
      assert exists k :: 0 <= k < |d.relationships| && d.relationships[k] == relationships[i];
      var nestedFilter, nestedSort :=
        CollectFieldPolicies(relationships[i].schema, prefix + relationships[i].name + "/");
      filterFields := filterFields + nestedFilter;
      sortFields := sortFields + nestedSort;
    }
    BehindNothing(d, relationships[|relationships|..], prefix, Filtering, filterFields);
    BehindNothing(d, relationships[|relationships|..], prefix, Sorting, sortFields);
  }

  lemma CollectedUnfolds(d: SchemaDescription, prefix: string, purpose: Purpose)
    ensures var relationships := SortByName(RELATIONSHIP_NAME, d.relationships);
      && (forall r :: r in relationships ==> r in d.relationships)
      && Collected(d, prefix, purpose) ==
           FieldPolicies(SortByName(FIELD_NAME, d.fields), prefix, purpose) +
             CollectedBehind(d, relationships, prefix, purpose)
  {
    SortKeeps(RELATIONSHIP_NAME, d.relationships);
  }

  lemma BehindUnfolds(d: SchemaDescription, r: RelationshipDescription, rest: seq<RelationshipDescription>,
                      prefix: string, purpose: Purpose, front: seq<FieldPolicy>)
    requires forall x :: x in [r] + rest ==> x in d.relationships
    ensures forall x :: x in rest ==> x in d.relationships
    ensures front + CollectedBehind(d, [r] + rest, prefix, purpose) ==
      (if r.cardinality == One then front + Collected(r.schema, prefix + r.name + "/", purpose) else front)
      + CollectedBehind(d, rest, prefix, purpose)
  {
    hide Collected;
    assert forall x :: x in rest ==> x in [r] + rest;
    assert ([r] + rest)[1..] == rest;
  }

  lemma BehindNothing(d: SchemaDescription, none: seq<RelationshipDescription>, prefix: string, purpose: Purpose,
                      front: seq<FieldPolicy>)
    requires none == []
    ensures front + CollectedBehind(d, none, prefix, purpose) == front
  {}

  lemma FieldsChosen(f: FieldDescription)
    ensures Chosen(f, Filtering) == f.filterable && Chosen(f, Sorting) == f.sortable
  {}

  // ---- hasFilterableFields ----

  predicate Filterable(d: SchemaDescription) {
    || (exists i :: 0 <= i < |d.fields| && d.fields[i].filterable)
    || exists i :: 0 <= i < |d.relationships| && Filterable(d.relationships[i].schema)
  }

  method HasFilterableFields(d: SchemaDescription) returns (has: bool)
    ensures has == Filterable(d)
    decreases d
  {
    for i := 0 to |d.fields|
      invariant forall k :: 0 <= k < i ==> !d.fields[k].filterable
    {
      if d.fields[i].filterable {
        return true;
      }
    }
    for i := 0 to |d.relationships|
      invariant forall k :: 0 <= k < i ==> !Filterable(d.relationships[k].schema)
    {
      var nested := HasFilterableFields(d.relationships[i].schema);
      if nested {
        return true;
      }
    }
    return false;
  }

  // ---- validateSchemaDescription ----

  ghost predicate FieldNamesValid(d: SchemaDescription) {
    && (forall k :: 0 <= k < |d.fields| ==> d.fields[k].name != "")
    && forall j, k :: 0 <= j < k < |d.fields| ==> d.fields[j].name != d.fields[k].name
  }

  // The first n relationships; what is nested in them is for NamesValid.
  ghost predicate RelationshipNamesValid(d: SchemaDescription, n: nat)
    requires n <= |d.relationships|
  {
    && (forall k :: 0 <= k < n ==> d.relationships[k].name != "")
    && (forall j, k :: 0 <= j < k < n ==> d.relationships[j].name != d.relationships[k].name)
    && (forall j, k :: 0 <= j < |d.fields| && 0 <= k < n ==> d.fields[j].name != d.relationships[k].name)
  }

  ghost predicate NamesValid(d: SchemaDescription) {
    && FieldNamesValid(d) && RelationshipNamesValid(d, |d.relationships|)
    && forall i :: 0 <= i < |d.relationships| ==> NamesValid(d.relationships[i].schema)
  }

  ghost predicate SeenNames(d: SchemaDescription, n: nat, seen: set<string>)
    requires n <= |d.relationships|
  {
    forall name :: name in seen <==>
      || (exists k :: 0 <= k < |d.fields| && d.fields[k].name == name)
      || exists k :: 0 <= k < n && d.relationships[k].name == name
  }

  method CheckFieldNames(d: SchemaDescription) returns (ok: bool, seen: set<string>)
    ensures ok == FieldNamesValid(d)
    ensures ok ==> SeenNames(d, 0, seen)
  {
    seen := {};
    for i := 0 to |d.fields|
      invariant forall name :: name in seen <==> exists k :: 0 <= k < i && d.fields[k].name == name
      invariant forall k :: 0 <= k < i ==> d.fields[k].name != ""
      invariant forall j, k :: 0 <= j < k < i ==> d.fields[j].name != d.fields[k].name
    {
      if d.fields[i].name == "" || d.fields[i].name in seen {
        return false, seen;
      }
      seen := seen + {d.fields[i].name};
    }
    return true, seen;
  }

  /** validateSchemaDescription */
  method ValidateSchemaDescription(d: SchemaDescription) returns (ok: bool)
    ensures ok == NamesValid(d)
    decreases d
  {
    hide FieldNamesValid;
    var seen;
    ok, seen := CheckFieldNames(d);
    if !ok {
      return false;
    }
    for i := 0 to |d.relationships|
      invariant SeenNames(d, i, seen) && RelationshipNamesValid(d, i)
      invariant forall k :: 0 <= k < i ==> NamesValid(d.relationships[k].schema)
    {
      hide NamesValid;
      var r := d.relationships[i];
      NextName(d, i, seen);
      if r.name == "" || r.name in seen {
        InvalidAt(d, i);
        return false;
      }
      seen := seen + {r.name};
      var nested := ValidateSchemaDescription(r.schema);
      if !nested {
        InvalidBelow(d, i);
        return false;
      }
    }
    return true;
  }

  lemma NextName(d: SchemaDescription, i: nat, seen: set<string>)
    requires i < |d.relationships| && SeenNames(d, i, seen) && RelationshipNamesValid(d, i)
    ensures RelationshipNamesValid(d, i + 1) <==> d.relationships[i].name != "" && d.relationships[i].name !in seen
    ensures SeenNames(d, i + 1, seen + {d.relationships[i].name})
  {
    var name := d.relationships[i].name;
    if name in seen && (exists k :: 0 <= k < i && d.relationships[k].name == name) {
      var k :| 0 <= k < i && d.relationships[k].name == name;
      assert d.relationships[k].name == d.relationships[i].name;
    }
    forall n ensures n in seen + {name} <==>
        || (exists k :: 0 <= k < |d.fields| && d.fields[k].name == n)
        || exists k :: 0 <= k < i + 1 && d.relationships[k].name == n
    {
      if exists k :: 0 <= k < i && d.relationships[k].name == n {
        var k :| 0 <= k < i && d.relationships[k].name == n;
        assert k < i + 1 && d.relationships[k].name == n;
      }
    }
  }

  lemma InvalidAt(d: SchemaDescription, i: nat)
    requires i < |d.relationships| && !RelationshipNamesValid(d, i + 1)
    ensures !NamesValid(d)
  {}

  lemma InvalidBelow(d: SchemaDescription, i: nat)
    requires i < |d.relationships| && !NamesValid(d.relationships[i].schema)
    ensures !NamesValid(d)
  {}
}
