/** The published paths are the paths the validators accept. */
module PublishedPaths {
  import opened Common
  import opened Strings
  import opened Ast
  import opened Schema
  import opened Description
  import opened OpenApi
  import opened SortParameter
  import opened SortPaths
  import opened BindingTheorems
  import Validator

  /** The field a path names through to-one relationships. */
  function FieldAt(m: Model, segments: seq<string>): Option<Field>
    decreases |segments|
  {
    if segments == [] then None
    else if |segments| == 1 then if segments[0] in m.fields then Some(m.fields[segments[0]]) else None
    else if segments[0] in m.relationships && m.relationships[segments[0]].cardinality == One
    then FieldAt(m.relationships[segments[0]].target, segments[1..])
    else None
  }

  predicate FieldChosen(f: Field, purpose: Purpose) { if purpose == Sorting then f.sortable else f.filterable }

  function Published(path: string, f: Field, purpose: Purpose): FieldPolicy {
    FieldPolicy(path, f.kind, f.nullable, if purpose == Sorting then [] else f.operators)
  }

  // ---- what is listed ----

  lemma {:induction false} FieldIsListed(fields: seq<FieldDescription>, prefix: string, purpose: Purpose,
                                         f: FieldDescription)
    requires f in fields && Chosen(f, purpose)
    ensures PolicyOf(prefix + f.name, f, purpose) in FieldPolicies(fields, prefix, purpose)
    decreases |fields|
  {
    hide PolicyOf, Chosen;
    if f != fields[0] {
      FieldIsListed(fields[1..], prefix, purpose, f);
    }
  }

  lemma {:induction false} ListedField(fields: seq<FieldDescription>, prefix: string, purpose: Purpose, p: FieldPolicy)
    returns (f: FieldDescription)
    requires p in FieldPolicies(fields, prefix, purpose)
    ensures f in fields && Chosen(f, purpose) && p == PolicyOf(prefix + f.name, f, purpose)
    decreases |fields|
  {
    hide PolicyOf, Chosen;
    if Chosen(fields[0], purpose) && p == PolicyOf(prefix + fields[0].name, fields[0], purpose) {
      f := fields[0];
    } else {
      f := ListedField(fields[1..], prefix, purpose, p);
    }
  }

  lemma {:induction false} NestedIsListed(d: SchemaDescription, relationships: seq<RelationshipDescription>,
                                          prefix: string, purpose: Purpose, r: RelationshipDescription, p: FieldPolicy)
    requires forall x :: x in relationships ==> x in d.relationships
    requires r in relationships && r.cardinality == One && p in Collected(r.schema, prefix + r.name + "/", purpose)
    ensures p in CollectedBehind(d, relationships, prefix, purpose)
    decreases |relationships|
  {
    hide Collected;
    if r != relationships[0] {
      NestedIsListed(d, relationships[1..], prefix, purpose, r, p);
    }
  }

  lemma {:induction false} ListedNested(d: SchemaDescription, relationships: seq<RelationshipDescription>,
                                        prefix: string,
                                        purpose: Purpose, p: FieldPolicy) returns (r: RelationshipDescription)
    requires forall x :: x in relationships ==> x in d.relationships
    requires p in CollectedBehind(d, relationships, prefix, purpose)
    ensures r in relationships && r.cardinality == One && p in Collected(r.schema, prefix + r.name + "/", purpose)
    decreases |relationships|
  {
    hide Collected;
    r := relationships[0];
    if r.cardinality != One || p !in Collected(r.schema, prefix + r.name + "/", purpose) {
      r := ListedNested(d, relationships[1..], prefix, purpose, p);
    }
  }

  lemma DescribedField(m: Model, d: SchemaDescription, name: string) returns (f: FieldDescription)
    requires Describes(m, d) && name in m.fields
    ensures f in d.fields && f == DescribeField(name, m.fields[name])
  {
    assert name in Names(FIELD_NAME, d.fields);
    f :| f in d.fields && f.name == name;
    assert DescribesField(m, f);
  }

  lemma DescribedRelationship(m: Model, d: SchemaDescription, name: string) returns (r: RelationshipDescription)
    requires Describes(m, d) && name in m.relationships
    ensures r in d.relationships && r.name == name && DescribesRelationship(m, r)
  {
    assert name in Names(RELATIONSHIP_NAME, d.relationships);
    r :| r in d.relationships && r.name == name;
  }

  lemma {:induction false} PathIsListed(m: Model, d: SchemaDescription, prefix: string, purpose: Purpose,
                                        segments: seq<string>)
    requires Describes(m, d) && FieldAt(m, segments).Some? && FieldChosen(FieldAt(m, segments).value, purpose)
    ensures Published(prefix + Join('/', segments), FieldAt(m, segments).value, purpose) in
      Collected(d, prefix, purpose)
    decreases |segments|
  {
    hide Describes, CollectedBehind, FieldPolicies;
    SortKeeps(FIELD_NAME, d.fields);
    SortKeeps(RELATIONSHIP_NAME, d.relationships);
    if |segments| == 1 {
      var f := DescribedField(m, d, segments[0]);
      FieldIsListed(SortByName(FIELD_NAME, d.fields), prefix, purpose, f);
    } else {
      var r := DescribedRelationship(m, d, segments[0]);
      PathIsListed(m.relationships[r.name].target, r.schema, prefix + r.name + "/", purpose, segments[1..]);
      assert (prefix + r.name + "/") + Join('/', segments[1..]) == prefix + Join('/', segments);
      NestedIsListed(d, SortByName(RELATIONSHIP_NAME, d.relationships), prefix, purpose, r,
                     Published(prefix + Join('/', segments), FieldAt(m, segments).value, purpose));
    }
  }

  lemma {:induction false} ListedIsPath(m: Model, d: SchemaDescription, prefix: string, purpose: Purpose,
                                        p: FieldPolicy)
    returns (segments: seq<string>)
    requires Describes(m, d) && p in Collected(d, prefix, purpose)
    ensures segments != [] && FieldAt(m, segments).Some? && FieldChosen(FieldAt(m, segments).value, purpose)
    ensures p == Published(prefix + Join('/', segments), FieldAt(m, segments).value, purpose)
    decreases d
  {
    hide Describes, CollectedBehind, FieldPolicies, SortByName, Collected;
    SortKeeps(FIELD_NAME, d.fields);
    CollectedUnfolds(d, prefix, purpose);
    var fields, relationships := SortByName(FIELD_NAME, d.fields), SortByName(RELATIONSHIP_NAME, d.relationships);
    if p in FieldPolicies(fields, prefix, purpose) {
      var f := ListedField(fields, prefix, purpose, p);
      FieldMember(m, d, f);
      segments := [f.name];
    } else {
      var r := ListedNested(d, relationships, prefix, purpose, p);
      assert exists k :: 0 <= k < |d.relationships| && d.relationships[k] == r;
      RelationshipDescribed(m, d, r);
      var rest := ListedIsPath(m.relationships[r.name].target, r.schema, prefix + r.name + "/", purpose, p);
      segments := [r.name] + rest;
      NestedPath(prefix, r.name, rest);
    }
  }

  lemma NestedPath(prefix: string, name: string, rest: seq<string>)
    requires rest != []
    ensures prefix + Join('/', [name] + rest) == (prefix + name + "/") + Join('/', rest) && ([name] + rest)[1..] == rest
  {
    assert ([name] + rest)[1..] == rest;
  }

  lemma RelationshipDescribed(m: Model, d: SchemaDescription, r: RelationshipDescription)
    requires Describes(m, d) && r in d.relationships
    ensures r.name in m.relationships && r.cardinality == m.relationships[r.name].cardinality
    ensures Describes(m.relationships[r.name].target, r.schema)
  {}

  // ---- what the validators accept ----

  lemma {:induction false} SegmentsArePublic(m: Model, segments: seq<string>)
    requires WellFormed(m) && FieldAt(m, segments).Some?
    ensures segments != [] && forall k :: 0 <= k < |segments| ==> IsPublicName(segments[k])
    decreases |segments|
  {
    if |segments| > 1 {
      SegmentsArePublic(m.relationships[segments[0]].target, segments[1..]);
    }
  }

  // A path of public names splits into them.
  lemma PathSegments(segments: seq<string>)
    requires segments != [] && forall k :: 0 <= k < |segments| ==> IsPublicName(segments[k])
    ensures Split('/', Join('/', segments)) == segments && ValidPath(Join('/', segments)) == Some(segments)
  {
    hide Split, IsPublicName;
    forall k | 0 <= k < |segments| ensures '/' !in segments[k] {
      PublicNameIsWord(segments[k]);
    }
    SplitJoin('/', segments);
    PublicNameIsWord(segments[0]);
    assert segments[0][0] == Join('/', segments)[0];
  }

  lemma PublicNameIsWord(name: string)
    requires IsPublicName(name)
    ensures name != "" && '/' !in name
  {
    hide IsReservedName;
  }

  lemma {:induction false} FollowMeetsField(m: Model, segments: seq<string>)
    requires segments != []
    ensures var last := |segments| - 1; var reached := FollowOnes(m, segments[..last]);
      FieldAt(m, segments) ==
        if reached.Ok? && segments[last] in reached.value.0.fields then Some(reached.value.0.fields[segments[last]])
        else None
    decreases |segments|
  {
    var last := |segments| - 1;
    if last > 0 {
      assert segments[..last][0] == segments[0] && segments[..last][1..] == segments[1..][..last - 1];
      assert segments[1..][last - 1] == segments[last];
      if segments[0] in m.relationships {
        FollowMeetsField(m.relationships[segments[0]].target, segments[1..]);
      }
    }
  }

  lemma SortResolves(m: Model, term: SortTerm, maxPathDepth: int)
    requires ValidPath(term.field).Some?
    ensures var segments := ValidPath(term.field).value; var f := FieldAt(m, segments);
      && (ResolveSort(m, term, maxPathDepth).Ok? <==> |segments| <= maxPathDepth && f.Some? && f.value.sortable)
      && (ResolveSort(m, term, maxPathDepth).Ok? ==> ResolveSort(m, term, maxPathDepth).value.field == f.value)
  {
    hide JoinWith, IsPublicName, Split;
    FollowMeetsField(m, ValidPath(term.field).value);
  }

  // The names a walk issues do not decide where it leads.
  lemma {:induction false} WalkMeetsFollow(m: Model, table: string, path: seq<string>, names: Validator.Names)
    ensures var walked := Validator.Walk(m, table, path, false, names); var reached := FollowOnes(m, path);
      walked.Ok? == reached.Ok? && (walked.Ok? ==> walked.value.model == reached.value.0)
    decreases |path|
  {
    hide Validator.Issue;
    if path != [] && path[0] in m.relationships && m.relationships[path[0]].cardinality == One {
      var (alias, issued) := Validator.Issue(names);
      WalkMeetsFollow(m.relationships[path[0]].target, alias, path[1..], issued);
    }
  }

  /** The literals suit the operator, and convert to the field's type. */
  predicate OperandAccepted(convert: Validator.Convert, f: Field, e: Expr)
    requires e.Comparison?
  {
    if e.op == IsNull || e.op == IsNotNull then e.literal == NO_LITERAL && e.literals == []
    else if e.op == In || e.op == NotIn then
      e.literal == NO_LITERAL && e.literals != [] && Validator.ConvertAll(convert, f, e.literals).Some?
    else e.literals == [] && convert(f, e.literal).Some?
  }

  lemma ComparisonResolves(convert: Validator.Convert, m: Model, e: Expr, maxPathDepth: int, names: Validator.Names)
    requires e.Comparison? && ValidPath(e.field).Some?
    ensures var segments := ValidPath(e.field).value; var f := FieldAt(m, segments);
      Validator.PathComparison(convert, maxPathDepth, Validator.RootScope(m), e, names).Ok? <==>
        && |segments| <= maxPathDepth && f.Some? && f.value.filterable && e.op in f.value.operators
        && OperandAccepted(convert, f.value, e)
  {
    hide IsPublicName, Split, Validator.Walk, FollowOnes;
    var segments := ValidPath(e.field).value;
    assert segments != [] by { ValidPathNonEmpty(e.field); }
    FollowMeetsField(m, segments);
    WalkMeetsFollow(m, m.table, segments[..|segments| - 1], names);
  }

  // A path is listed exactly when its segments lead to a chosen field.
  lemma ListedExactly(m: Model, d: SchemaDescription, purpose: Purpose, p: FieldPolicy)
    requires WellFormed(m) && Describes(m, d)
    ensures p in Collected(d, "", purpose) <==>
      ValidPath(p.name).Some? &&
      var f := FieldAt(m, ValidPath(p.name).value);
      f.Some? && FieldChosen(f.value, purpose) && p == Published(p.name, f.value, purpose)
  {
    hide WellFormed, Describes, Collected, FieldAt, Join, ValidPath;
    if p in Collected(d, "", purpose) {
      var segments := ListedIsPath(m, d, "", purpose, p);
      SegmentsArePublic(m, segments);
      PathSegments(segments);
      assert "" + Join('/', segments) == Join('/', segments);
    }
    if ValidPath(p.name).Some? {
      var segments := ValidPath(p.name).value;
      ValidPathJoins(p.name);
      if FieldAt(m, segments).Some? && FieldChosen(FieldAt(m, segments).value, purpose) {
        PathIsListed(m, d, "", purpose, segments);
        assert "" + Join('/', segments) == p.name;
      }
    }
  }

  lemma ValidPathJoins(path: string)
    requires ValidPath(path).Some?
    ensures Join('/', ValidPath(path).value) == path
  {}

  /** A path is published as sortable exactly when validateSortPath accepts it, up to the
      depth limit the endpoint publishes beside it. */
  lemma SortPathsPublished(m: Model, d: SchemaDescription, term: SortTerm, maxPathDepth: int)
    requires WellFormed(m) && Describes(m, d)
    ensures ResolveSort(m, term, maxPathDepth).Ok? <==>
      (exists p :: p in Collected(d, "", Sorting) && p.name == term.field) && |Split('/', term.field)| <= maxPathDepth
  {
    hide WellFormed, Describes, Collected, FieldAt, ResolveSort, IsPublicName;
    forall p | p in Collected(d, "", Sorting) && p.name == term.field
      ensures ValidPath(term.field).Some? && FieldAt(m, ValidPath(term.field).value).Some?
      ensures FieldAt(m, ValidPath(term.field).value).value.sortable
    {
      ListedExactly(m, d, Sorting, p);
    }
    if ValidPath(term.field).Some? {
      SortResolves(m, term, maxPathDepth);
      var f := FieldAt(m, ValidPath(term.field).value);
      if f.Some? {
        ListedExactly(m, d, Sorting, Published(term.field, f.value, Sorting));
      }
    } else {
      InvalidPathFails(m, term, maxPathDepth);
    }
  }

  lemma InvalidPathFails(m: Model, term: SortTerm, maxPathDepth: int)
    requires ValidPath(term.field).None?
    ensures ResolveSort(m, term, maxPathDepth).Err?
  {}

  /** A path is published as filterable with an operator exactly when a root comparison of
      that path by that operator resolves, up to the depth limit and its literals. */
  lemma FilterPathsPublished(convert: Validator.Convert, m: Model, d: SchemaDescription, e: Expr, maxPathDepth: int,
                             names: Validator.Names)
    requires WellFormed(m) && Describes(m, d) && e.Comparison?
    ensures Validator.PathComparison(convert, maxPathDepth, Validator.RootScope(m), e, names).Ok? <==>
      && (exists p :: p in Collected(d, "", Filtering) && p.name == e.field && e.op in p.operators)
      && |Split('/', e.field)| <= maxPathDepth
      && ValidPath(e.field).Some? && FieldAt(m, ValidPath(e.field).value).Some?
      && OperandAccepted(convert, FieldAt(m, ValidPath(e.field).value).value, e)
  {
    hide WellFormed, Describes, Collected, FieldAt, OperandAccepted, IsPublicName;
    forall p | p in Collected(d, "", Filtering) && p.name == e.field && e.op in p.operators
      ensures ValidPath(e.field).Some? && FieldAt(m, ValidPath(e.field).value).Some?
      ensures var f := FieldAt(m, ValidPath(e.field).value).value; f.filterable && e.op in f.operators
    {
      ListedExactly(m, d, Filtering, p);
    }
    if ValidPath(e.field).Some? {
      hide Validator.PathComparison;
      ComparisonResolves(convert, m, e, maxPathDepth, names);
      var f := FieldAt(m, ValidPath(e.field).value);
      if f.Some? {
        ListedExactly(m, d, Filtering, Published(e.field, f.value, Filtering));
      }
    }
  }

  // ---- the flags of a description ----

  /** schemaHasFilter, which trusts the relationships' flags, and hasFilterableFields,
      which looks for itself, agree on what describeModelSchema produces. */
  lemma {:induction false} FilterFlagsAgree(m: Model, d: SchemaDescription)
    requires Describes(m, d)
    ensures HasFilter(d) == Filterable(d)
    decreases d
  {
    forall i | 0 <= i < |d.relationships|
      ensures d.relationships[i].filterable == Filterable(d.relationships[i].schema)
    {
      var r := d.relationships[i];
      assert DescribesRelationship(m, r);
      FilterFlagsAgree(m.relationships[r.name].target, r.schema);
    }
  }

  /** schemaHasSort holds exactly when some path is listed as sortable. */
  lemma {:induction false} SortFlagsAgree(m: Model, d: SchemaDescription, prefix: string)
    requires Describes(m, d)
    ensures HasSort(d) <==> Collected(d, prefix, Sorting) != []
    decreases d
  {
    hide Describes, Collected, CollectedBehind, FieldPolicies, SortByName;
    CollectedUnfolds(d, prefix, Sorting);
    SortKeeps(FIELD_NAME, d.fields);
    SortKeeps(RELATIONSHIP_NAME, d.relationships);
    var fields, relationships := SortByName(FIELD_NAME, d.fields), SortByName(RELATIONSHIP_NAME, d.relationships);
    if FieldPolicies(fields, prefix, Sorting) != [] {
      var f := ListedField(fields, prefix, Sorting, FieldPolicies(fields, prefix, Sorting)[0]);
      var k :| 0 <= k < |d.fields| && d.fields[k] == f;
    }
    if CollectedBehind(d, relationships, prefix, Sorting) != [] {
      var r := ListedNested(d, relationships, prefix, Sorting, CollectedBehind(d, relationships, prefix, Sorting)[0]);
      var k :| 0 <= k < |d.relationships| && d.relationships[k] == r;
      RelationshipDescribed(m, d, r);
      SortFlagsAgree(m.relationships[r.name].target, r.schema, prefix + r.name + "/");
      assert d.relationships[k].sortable by { SortFlag(m, d, r); }
    }
    if exists k :: 0 <= k < |d.fields| && d.fields[k].sortable {
      var k :| 0 <= k < |d.fields| && d.fields[k].sortable;
      assert d.fields[k] in d.fields;
      FieldIsListed(fields, prefix, Sorting, d.fields[k]);
    }
    if exists k :: 0 <= k < |d.relationships| && d.relationships[k].sortable {
      var k :| 0 <= k < |d.relationships| && d.relationships[k].sortable;
      var r := d.relationships[k];
      assert r in d.relationships;
      RelationshipDescribed(m, d, r);
      SortFlag(m, d, r);
      SortFlagsAgree(m.relationships[r.name].target, r.schema, prefix + r.name + "/");
      var p := Collected(r.schema, prefix + r.name + "/", Sorting)[0];
      NestedIsListed(d, relationships, prefix, Sorting, r, p);
    }
  }

  lemma SortFlag(m: Model, d: SchemaDescription, r: RelationshipDescription)
    requires Describes(m, d) && r in d.relationships
    ensures r.sortable == (r.cardinality == One && HasSort(r.schema))
  {}

  /** A description of a bound schema passes the generator's own validation. */
  lemma {:induction false} DescriptionsAreValid(m: Model, d: SchemaDescription)
    requires WellFormed(m) && Describes(m, d)
    ensures NamesValid(d)
    decreases d
  {
    hide IsPublicName;
    forall k | 0 <= k < |d.fields| ensures d.fields[k].name in m.fields && d.fields[k].name != "" {
      assert DescribesField(m, d.fields[k]);
      PublicNameIsWord(d.fields[k].name);
    }
    forall k | 0 <= k < |d.relationships|
      ensures d.relationships[k].name in m.relationships && d.relationships[k].name != ""
        && d.relationships[k].name !in m.fields
      ensures NamesValid(d.relationships[k].schema)
    {
      var r := d.relationships[k];
      assert DescribesRelationship(m, r);
      PublicNameIsWord(r.name);
      DescriptionsAreValid(m.relationships[r.name].target, r.schema);
    }
    forall j, k | 0 <= j < k < |d.fields| ensures d.fields[j].name != d.fields[k].name {
      LessIsStrict(FIELD_NAME(d.fields[j]), FIELD_NAME(d.fields[k]));
    }
    forall j, k | 0 <= j < k < |d.relationships| ensures d.relationships[j].name != d.relationships[k].name {
      LessIsStrict(RELATIONSHIP_NAME(d.relationships[j]), RELATIONSHIP_NAME(d.relationships[k]));
    }
  }
}
