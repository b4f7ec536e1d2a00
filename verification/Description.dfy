/** description.go and openapi/openapi.go: the published view of a bound schema. */
module Description {
  import opened Ast
  import opened Schema

  datatype FieldDescription = FieldDescription(
    name: string, kind: Kind, nullable: bool, filterable: bool, sortable: bool, operators: seq<CompareOp>)

  datatype RelationshipDescription = RelationshipDescription(
    name: string, cardinality: Cardinality, filterable: bool, sortable: bool, schema: SchemaDescription)

  datatype SchemaDescription = SchemaDescription(fields: seq<FieldDescription>,
                                                 relationships: seq<RelationshipDescription>)

  // ---- sort.Slice by name ----

  /** Go's string order: by bytes. */
  predicate Less(a: string, b: string) {
    b != "" && (a == "" || a[0] < b[0] || (a[0] == b[0] && Less(a[1..], b[1..])))
  }

  lemma {:induction false} LessIsTotal(a: string, b: string)
    ensures a == b || Less(a, b) || Less(b, a)
  {
    if a != "" && b != "" && a[0] == b[0] {
      LessIsTotal(a[1..], b[1..]);
      assert a == [a[0]] + a[1..] && b == [b[0]] + b[1..];
    }
  }

  lemma {:induction false} LessIsStrict(a: string, b: string)
    ensures !(Less(a, b) && Less(b, a))
  {
    if a != "" && b != "" && a[0] == b[0] {
      LessIsStrict(a[1..], b[1..]);
    }
  }

  lemma {:induction false} LessIsTransitive(a: string, b: string, c: string)
    requires Less(a, b) && Less(b, c)
    ensures Less(a, c)
  {
    if a != "" && a[0] == b[0] == c[0] {
      LessIsTransitive(a[1..], b[1..], c[1..]);
    }
  }

  function Insert<T>(name: T -> string, x: T, sorted: seq<T>): (r: seq<T>)
    ensures multiset(r) == multiset(sorted) + multiset{x}
  {
    if sorted == [] then [x]
    else if Less(name(sorted[0]), name(x)) then
      assert sorted == [sorted[0]] + sorted[1..];
      [sorted[0]] + Insert(name, x, sorted[1..])
    else [x] + sorted
  }

  function SortByName<T>(name: T -> string, items: seq<T>): (r: seq<T>)
    ensures multiset(r) == multiset(items)
  {
    if items == [] then []
    else
      assert items == [items[0]] + items[1..];
      Insert(name, items[0], SortByName(name, items[1..]))
  }

  // Names strictly ascend, so none occurs twice.
  ghost predicate Ascends<T>(name: T -> string, items: seq<T>) {
    forall i, j :: 0 <= i < j < |items| ==> Less(name(items[i]), name(items[j]))
  }

  ghost predicate DistinctNames<T>(name: T -> string, items: seq<T>) {
    forall i, j :: 0 <= i < j < |items| ==> name(items[i]) != name(items[j])
  }

  lemma Moves<T>(a: seq<T>, b: seq<T>, x: T)
    requires multiset(a) == multiset(b) && x in a
    ensures x in b
  {
    assert x in multiset(a);
    assert x in multiset(b);
  }

  ghost function Names<T>(name: T -> string, items: seq<T>): set<string> { set x | x in items :: name(x) }

  lemma NamesGrow<T>(name: T -> string, items: seq<T>, x: T)
    ensures Names(name, items + [x]) == Names(name, items) + {name(x)}
  {
    forall n | n in Names(name, items) + {name(x)} ensures n in Names(name, items + [x]) {
      if n in Names(name, items) {
        var y :| y in items && name(y) == n;
        assert y in items + [x];
      } else {
        assert x in items + [x];
      }
    }
  }

  // Sorting keeps the members, and so the names.
  lemma SortKeeps<T>(name: T -> string, items: seq<T>)
    ensures forall x :: x in SortByName(name, items) <==> x in items
    ensures Names(name, SortByName(name, items)) == Names(name, items)
  {
    var sorted := SortByName(name, items);
    forall x ensures x in sorted <==> x in items {
      if x in sorted {
        Moves(sorted, items, x);
      }
      if x in items {
        Moves(items, sorted, x);
      }
    }
    forall n ensures n in Names(name, sorted) <==> n in Names(name, items) {
      if n in Names(name, sorted) {
        var x :| x in sorted && name(x) == n;
        assert x in items;
      }
      if n in Names(name, items) {
        var x :| x in items && name(x) == n;
        assert x in sorted;
      }
    }
  }

  lemma AscendsFrom<T>(name: T -> string, first: T, rest: seq<T>)
    requires Ascends(name, rest) && forall y :: y in rest ==> Less(name(first), name(y))
    ensures Ascends(name, [first] + rest)
  {
    hide Less;
  }

  lemma {:induction false} InsertAscends<T>(name: T -> string, x: T, sorted: seq<T>)
    requires Ascends(name, sorted) && forall y :: y in sorted ==> name(y) != name(x)
    ensures Ascends(name, Insert(name, x, sorted))
  {
    hide Less;
    if sorted != [] {
      var first, rest := sorted[0], sorted[1..];
      LessIsTotal(name(first), name(x));
      if Less(name(first), name(x)) {
        InsertAscends(name, x, rest);
        var inserted := Insert(name, x, rest);
        assert multiset([x] + rest) == multiset(inserted);
        forall y | y in inserted ensures Less(name(first), name(y)) {
          Moves(inserted, [x] + rest, y);
        }
        AscendsFrom(name, first, inserted);
      } else {
        forall y | y in sorted ensures Less(name(x), name(y)) {
          if y != first {
            LessIsTransitive(name(x), name(first), name(y));
          }
        }
        AscendsFrom(name, x, sorted);
      }
    }
  }

  lemma {:induction false} SortAscends<T>(name: T -> string, items: seq<T>)
    requires DistinctNames(name, items)
    ensures Ascends(name, SortByName(name, items))
  {
    if items != [] {
      var rest := items[1..];
      SortAscends(name, rest);
      forall y | y in SortByName(name, rest) ensures name(y) != name(items[0]) {
        Moves(SortByName(name, rest), rest, y);
        var k :| 0 <= k < |rest| && rest[k] == y;
        assert items[k + 1] == y;
      }
      InsertAscends(name, items[0], SortByName(name, rest));
    }
  }

  // ---- describeModelSchema ----

  function DescribeField(name: string, f: Field): FieldDescription {
    FieldDescription(name, f.kind, f.nullable, f.filterable, f.sortable, f.operators)
  }

  const FIELD_NAME := (f: FieldDescription) => f.name
  const RELATIONSHIP_NAME := (r: RelationshipDescription) => r.name

  predicate HasFilter(d: SchemaDescription) {
    || (exists i :: 0 <= i < |d.fields| && d.fields[i].filterable)
    || exists i :: 0 <= i < |d.relationships| && d.relationships[i].filterable
  }

  predicate HasSort(d: SchemaDescription) {
    || (exists i :: 0 <= i < |d.fields| && d.fields[i].sortable)
    || exists i :: 0 <= i < |d.relationships| && d.relationships[i].sortable
  }

  ghost predicate DescribesField(m: Model, f: FieldDescription) {
    f.name in m.fields && f == DescribeField(f.name, m.fields[f.name])
  }

  ghost predicate DescribesRelationship(m: Model, r: RelationshipDescription)
    decreases m, 0
  {
    && r.name in m.relationships
    && r.cardinality == m.relationships[r.name].cardinality
    && r.filterable == HasFilter(r.schema)
    && r.sortable == (r.cardinality == One && HasSort(r.schema))
    && Describes(m.relationships[r.name].target, r.schema)
  }

  /** The description holds the schema's public names, each once and in order. */
  ghost predicate Describes(m: Model, d: SchemaDescription)
    decreases m, 1
  {
    && Ascends(FIELD_NAME, d.fields) && Names(FIELD_NAME, d.fields) == m.fields.Keys
    && (forall f :: f in d.fields ==> DescribesField(m, f))
    && Ascends(RELATIONSHIP_NAME, d.relationships) && Names(RELATIONSHIP_NAME, d.relationships) == m.relationships.Keys
    && (forall i :: 0 <= i < |d.relationships| ==> DescribesRelationship(m, d.relationships[i]))
  }

  method SchemaHasFilter(d: SchemaDescription) returns (has: bool)
    ensures has == HasFilter(d)
  {
    for i := 0 to |d.fields|
      invariant forall k :: 0 <= k < i ==> !d.fields[k].filterable
    {
      if d.fields[i].filterable {
        return true;
      }
    }
    for i := 0 to |d.relationships|
      invariant forall k :: 0 <= k < i ==> !d.relationships[k].filterable
    {
      if d.relationships[i].filterable {
        return true;
      }
    }
    return false;
  }

  method SchemaHasSort(d: SchemaDescription) returns (has: bool)
    ensures has == HasSort(d)
  {
    for i := 0 to |d.fields|
      invariant forall k :: 0 <= k < i ==> !d.fields[k].sortable
    {
      if d.fields[i].sortable {
        return true;
      }
    }
    for i := 0 to |d.relationships|
      invariant forall k :: 0 <= k < i ==> !d.relationships[k].sortable
    {
      if d.relationships[i].sortable {
        return true;
      }
    }
    return false;
  }

  method DescribeFields(m: Model) returns (fields: seq<FieldDescription>)
    ensures Ascends(FIELD_NAME, fields) && Names(FIELD_NAME, fields) == m.fields.Keys
    ensures forall f :: f in fields ==> DescribesField(m, f)
  {
    fields := [];
    var pending := m.fields.Keys;
    while pending != {}
      invariant pending <= m.fields.Keys && DistinctNames(FIELD_NAME, fields)
      invariant Names(FIELD_NAME, fields) == m.fields.Keys - pending
      invariant forall f :: f in fields ==> DescribesField(m, f)
      decreases pending
    {
      var name :| name in pending;
      pending := pending - {name};
      ghost var before := fields;
      forall k | 0 <= k < |before| ensures before[k].name != name {
        assert before[k] in before;
        assert FIELD_NAME(before[k]) in Names(FIELD_NAME, before);
      }
      NamesGrow(FIELD_NAME, fields, DescribeField(name, m.fields[name]));
      fields := fields + [DescribeField(name, m.fields[name])];
    }
    SortAscends(FIELD_NAME, fields);
    SortKeeps(FIELD_NAME, fields);
    fields := SortByName(FIELD_NAME, fields);
  }

  method DescribeRelationships(m: Model) returns (relationships: seq<RelationshipDescription>)
    ensures Ascends(RELATIONSHIP_NAME, relationships) && Names(RELATIONSHIP_NAME, relationships) == m.relationships.Keys
    ensures forall r :: r in relationships ==> DescribesRelationship(m, r)
    decreases m, 1
  {
    hide Describes, HasFilter, HasSort, DescribesRelationship;
    relationships := [];
    var pending := m.relationships.Keys;
    while pending != {}
      invariant pending <= m.relationships.Keys && DistinctNames(RELATIONSHIP_NAME, relationships)
      invariant Names(RELATIONSHIP_NAME, relationships) == m.relationships.Keys - pending
      invariant forall r :: r in relationships ==> DescribesRelationship(m, r)
      decreases pending
    {
      var name :| name in pending;
      pending := pending - {name};
      var described := DescribeRelationship(m, name);
      ghost var before := relationships;
      forall k | 0 <= k < |before| ensures before[k].name != name {
        assert before[k] in before;
        assert RELATIONSHIP_NAME(before[k]) in Names(RELATIONSHIP_NAME, before);
      }
      NamesGrow(RELATIONSHIP_NAME, relationships, described);
      relationships := relationships + [described];
    }
    SortAscends(RELATIONSHIP_NAME, relationships);
    SortKeeps(RELATIONSHIP_NAME, relationships);
    relationships := SortByName(RELATIONSHIP_NAME, relationships);
  }

  method DescribeRelationship(m: Model, name: string) returns (r: RelationshipDescription)
    requires name in m.relationships
    ensures r.name == name && DescribesRelationship(m, r)
    decreases m, 0
  {
    hide Describes, HasFilter, HasSort;
    var relationship := m.relationships[name];
    var target := DescribeModelSchema(relationship.target);
    var filterable := SchemaHasFilter(target);
    var sortable := SchemaHasSort(target);
    r := RelationshipDescription(name, relationship.cardinality, filterable,
                                 relationship.cardinality == One && sortable, target);
  }

  /** describeModelSchema: whatever order the maps are visited in. */
  method DescribeModelSchema(m: Model) returns (d: SchemaDescription)
    ensures Describes(m, d)
    decreases m, 2
  {
    hide HasFilter, HasSort, DescribesField, DescribesRelationship, Ascends;
    var fields := DescribeFields(m);
    var relationships := DescribeRelationships(m);
    d := SchemaDescription(fields, relationships);
  }

  // ---- one schema, one description ----

  lemma {:induction false} AscendingIsUnique<T>(name: T -> string, a: seq<T>, b: seq<T>)
    requires Ascends(name, a) && Ascends(name, b)
    requires forall x :: x in a <==> x in b
    ensures a == b
    decreases |a|
  {
    if b != [] {
      assert b[0] in b;
    }
    if a != [] {
      assert a[0] in b && b != [];
      assert b[0] in a;
      var i :| 0 <= i < |b| && b[i] == a[0];
      var j :| 0 <= j < |a| && a[j] == b[0];
      if i > 0 && j > 0 {
        LessIsStrict(name(a[0]), name(b[0]));
      }
      LessIsStrict(name(a[0]), name(a[0]));
      assert a[0] == b[0];
      forall x ensures x in a[1..] <==> x in b[1..] {
        RestMembers(name, a, x);
        RestMembers(name, b, x);
      }
      AscendingIsUnique(name, a[1..], b[1..]);
      assert a == [a[0]] + a[1..] && b == [b[0]] + b[1..];
    }
  }

  lemma RestMembers<T>(name: T -> string, a: seq<T>, x: T)
    requires a != [] && Ascends(name, a)
    ensures x in a[1..] <==> x in a && x != a[0]
  {
    LessIsStrict(name(a[0]), name(a[0]));
    if x in a && x != a[0] {
      var k :| 0 <= k < |a| && a[k] == x;
      assert a[1..][k - 1] == x;
    }
    if x in a[1..] {
      var k :| 0 <= k < |a| - 1 && a[1..][k] == x;
      assert a[k + 1] == x;
    }
  }

  /** A schema has one description: it is a deterministic projection. */
  lemma {:induction false} DescriptionIsUnique(m: Model, a: SchemaDescription, b: SchemaDescription)
    requires Describes(m, a) && Describes(m, b)
    ensures a == b
    decreases m
  {
    forall f ensures f in a.fields <==> f in b.fields {
      FieldMember(m, a, f);
      FieldMember(m, b, f);
    }
    AscendingIsUnique(FIELD_NAME, a.fields, b.fields);
    forall r ensures r in a.relationships <==> r in b.relationships {
      if r in a.relationships {
        var s := RelationshipMember(m, a, b, r);
        DescriptionIsUnique(m.relationships[r.name].target, r.schema, s.schema);
      }
      if r in b.relationships {
        var s := RelationshipMember(m, b, a, r);
        DescriptionIsUnique(m.relationships[r.name].target, r.schema, s.schema);
      }
    }
    AscendingIsUnique(RELATIONSHIP_NAME, a.relationships, b.relationships);
  }

  lemma FieldMember(m: Model, d: SchemaDescription, f: FieldDescription)
    requires Describes(m, d)
    ensures f in d.fields <==> DescribesField(m, f)
  {
    if DescribesField(m, f) {
      assert f.name in Names(FIELD_NAME, d.fields);
      var g :| g in d.fields && g.name == f.name;
      assert DescribesField(m, g);
    }
  }

  lemma RelationshipMember(m: Model, a: SchemaDescription, b: SchemaDescription, r: RelationshipDescription)
    returns (s: RelationshipDescription)
    requires Describes(m, a) && Describes(m, b) && r in a.relationships
    ensures s in b.relationships && s.name == r.name && DescribesRelationship(m, s) && DescribesRelationship(m, r)
  {
    assert RELATIONSHIP_NAME(r) in Names(RELATIONSHIP_NAME, a.relationships);
    assert r.name in Names(RELATIONSHIP_NAME, b.relationships);
    s :| s in b.relationships && s.name == r.name;
  }
}
