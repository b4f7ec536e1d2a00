/** Every bindable schema is bound from some policies, so the bindable schemas are exactly
    the ones the library can come to work on. */
module BindingRealised {
  import opened Common
  import opened Strings
  import opened Schema
  import opened Binding
  import opened BindingTheorems

  function DeclOfField(name: string, f: Field): FieldDecl {
    FieldDecl(name, true, f.column, f.kind, f.nullable, f.filterable, f.sortable, f.operators)
  }

  function DeclOfRelationship(name: string, r: Relationship, table: string, policy: Policy): RelationDecl {
    var kind := if r.association.ManyToMany? then Many2Many else if r.cardinality == One then HasOne else HasMany;
    RelationDecl(name, true, r.goName, kind, table, r.association.target, r.association.references,
                 if r.association.ManyToMany? then Some(r.association.join) else None, r.target.table, policy)
  }

  // ---- fields ----

  lemma {:induction false} FieldsAppend(decls: seq<FieldDecl>, fields: map<string, Field>, d: FieldDecl)
    requires BindFields(decls, fields).Ok? && FieldSound(d) && d.publicName !in BindFields(decls, fields).value
    ensures BindFields(decls + [d], fields) == Ok(BindFields(decls, fields).value[d.publicName := FieldOf(d)])
    decreases |decls|
  {
    hide FieldSound, FieldOf;
    if decls == [] {
      assert ([] + [d])[1..] == [];
    } else {
      assert (decls + [d])[1..] == decls[1..] + [d];
      FieldsAppend(decls[1..], fields[decls[0].publicName := FieldOf(decls[0])], d);
    }
  }

  lemma DeclaredField(name: string, f: Field)
    requires IsPublicName(name) && FieldWellFormed(f)
    ensures FieldSound(DeclOfField(name, f)) && FieldOf(DeclOfField(name, f)) == f
  {
    hide IsPublicName, IsValidIdentifier, OperatorsSound;
  }

  method DeclareFields(m: Model) returns (decls: seq<FieldDecl>)
    requires forall n :: n in m.fields ==> IsPublicName(n) && FieldWellFormed(m.fields[n])
    ensures BindFields(decls, map[]) == Ok(m.fields)
  {
    hide IsPublicName, FieldWellFormed, FieldSound, FieldOf;
    decls := [];
    var pending := m.fields.Keys;
    while pending != {}
      invariant pending <= m.fields.Keys
      invariant BindFields(decls, map[]).Ok? && BindFields(decls, map[]).value == m.fields - pending
      decreases pending
    {
      var name :| name in pending;
      DeclaredField(name, m.fields[name]);
      FieldsAppend(decls, map[], DeclOfField(name, m.fields[name]));
      decls := decls + [DeclOfField(name, m.fields[name])];
      pending := pending - {name};
    }
    assert m.fields - {} == m.fields;
  }

  // ---- the graph may grow around a policy ----

  /** What is built depends only on the policies a closed set holds and on which of them
      are active. */
  lemma {:induction false} BuildInside(p: Policy, active: set<Policy>, some: set<Policy>, others: set<Policy>,
                                       all: set<Policy>)
    requires p in some && some <= all && Closed(some) && Closed(all) && active * some == others * some
    ensures Build(p, active, some) == Build(p, others, all)
    decreases |some - active|, 0
  {
    hide BindFields, RelationSound;
    assert p in active <==> p in others by { assert p in active * some <==> p in others * some; }
    if p !in active && p.sound && BindFields(p.fields, map[]).Ok? {
      Shrinks(some, active, p);
      Shrinks(all, others, p);
      assert (active + {p}) * some == active * some + {p} && (others + {p}) * some == others * some + {p};
      RelationsInside(p.relationships, BindFields(p.fields, map[]).value.Keys, map[], active + {p}, some, others + {p},
                      all);
    }
  }

  lemma {:induction false} RelationsInside(decls: seq<RelationDecl>, fields: set<string>,
                                           done: map<string, Relationship>,
                                           active: set<Policy>, some: set<Policy>, others: set<Policy>,
                                           all: set<Policy>)
    requires Inside(decls, some) && some <= all && Closed(some) && Closed(all) && active * some == others * some
    ensures Inside(decls, all)
    ensures BuildRelations(decls, fields, done, active, some) == BuildRelations(decls, fields, done, others, all)
    decreases |some - active|, 1 + |decls|
  {
    hide Build, RelationSound, Closed;
    if decls != [] && decls[0].policy != null {
      var d := decls[0];
      SoundMeans(d);
      BuildInside(d.policy, active, some, others, all);
      var target := Build(d.policy, active, some);
      if RelationSound(d) && target.Ok? {
        RelationsInside(decls[1..], fields, done[d.publicName := RelationOf(d, target.value)], active, some, others,
                        all);
      }
    }
  }

  // ---- relationships ----

  // The first declarations, and what is bound for them.
  ghost predicate Realised(m: Model, decls: seq<RelationDecl>, names: seq<string>, rest: set<Policy>)
    requires Closed(rest)
    reads rest
  {
    && |decls| == |names| && (forall i, j :: 0 <= i < j < |names| ==> names[i] != names[j])
    && forall k :: 0 <= k < |names| ==>
         && names[k] in m.relationships && decls[k].policy != null && decls[k].policy in rest
         && decls[k] == DeclOfRelationship(names[k], m.relationships[names[k]], m.table, decls[k].policy)
         && decls[k].policy.modelType == decls[k].policy.table == m.relationships[names[k]].target.table
         && Build(decls[k].policy, {}, rest) == Ok(m.relationships[names[k]].target)
  }

  lemma DeclaredRelationship(m: Model, name: string, policy: Policy)
    requires Bindable(m) && name in m.relationships && policy.modelType == m.relationships[name].target.table
    ensures var d := DeclOfRelationship(name, m.relationships[name], m.table, policy);
      RelationSound(d) && RelationOf(d, m.relationships[name].target) == m.relationships[name]
  {
    hide IsPublicName, ReferenceComplete, Bindable;
    RelationshipParts(m, name);
  }

  lemma RelationshipParts(m: Model, name: string)
    requires Bindable(m) && name in m.relationships
    ensures IsPublicName(name) && m.table != "" && AssociationComplete(m.relationships[name])
  {
    hide IsPublicName, FieldWellFormed;
    assert WellFormed(m);
  }

  lemma NameOfDecl(name: string, r: Relationship, table: string, policy: Policy)
    ensures DeclOfRelationship(name, r, table, policy).publicName == name
  {}

  function Done(m: Model, names: seq<string>): map<string, Relationship> {
    map n | n in names && n in m.relationships :: m.relationships[n]
  }

  lemma {:induction false} RelationsRealised(m: Model, decls: seq<RelationDecl>, names: seq<string>, k: nat, p: Policy,
                                             rest: set<Policy>)
    requires Closed(rest) && Closed(rest + {p}) && p !in rest && k <= |decls| && Bindable(m)
    requires Realised(m, decls, names, rest) && Inside(decls[k..], rest + {p})
    requires forall n :: n in m.relationships ==> n !in m.fields
    ensures BuildRelations(decls[k..], m.fields.Keys, Done(m, names[..k]), {p}, rest + {p}) == Ok(Done(m, names))
    decreases |decls| - k
  {
    hide Build, RelationSound, Bindable, BuildRelations, Closed, RelationOf, DeclOfRelationship;
    RelationsUnfold(decls[k..], m.fields.Keys, Done(m, names[..k]), {p}, rest + {p});
    if k == |decls| {
      assert names[..k] == names;
    } else {
      var d, name := decls[k], names[k];
      assert d.publicName == name by { NameOfDecl(name, m.relationships[name], m.table, d.policy); }
      assert decls[k..][0] == d && decls[k..][1..] == decls[k + 1..];
      assert names[..k + 1] == names[..k] + [name];
      assert Inside(decls[k + 1..], rest + {p}) by { InsideTail(decls[k..], rest + {p}); }
      DeclaredRelationship(m, name, d.policy);
      BuildInside(d.policy, {}, rest, {p}, rest + {p});
      assert name !in names[..k];
      assert Done(m, names[..k])[name := m.relationships[name]] == Done(m, names[..k + 1]);
      RelationsRealised(m, decls, names, k + 1, p, rest);
    }
  }

  lemma InsideTail(decls: seq<RelationDecl>, all: set<Policy>)
    requires decls != [] && Inside(decls, all)
    ensures Inside(decls[1..], all)
  {}

  /** Policies that bind to a given bindable schema. */
  method Realise(m: Model) returns (p: Policy, ghost all: set<Policy>)
    requires Bindable(m)
    ensures fresh(all) && p in all && Closed(all) && OneTablePerType(all)
    ensures p.modelType == p.table == m.table
    ensures Build(p, {}, all) == Ok(m)
    decreases m
  {
    hide BindFields, RelationSound, Build, BuildRelations, Bindable, OneTablePerType, Realised;
    BindableFields(m);
    NothingRealised(m);
    var fields := DeclareFields(m);
    p := new Policy(m.table, m.table);
    p.fields := fields;
    ghost var rest: set<Policy> := {};
    ghost var names: seq<string> := [];
    var decls: seq<RelationDecl> := [];
    var pending := m.relationships.Keys;
    while pending != {}
      invariant pending <= m.relationships.Keys && fresh(rest) && fresh(p) && p !in rest
      invariant p.modelType == p.table == m.table && p.sound && p.fields == fields && p.relationships == []
      invariant Closed(rest) && OneTablePerType(rest) && Realised(m, decls, names, rest)
      invariant forall n :: n in names <==> n in m.relationships && n !in pending
      decreases pending
    {
      var name :| name in pending;
      var r := m.relationships[name];
      BindableTarget(m, name);
      var q, sub := Realise(r.target);
      RealisedMore(m, decls, names, rest, sub, name, q);
      decls := decls + [DeclOfRelationship(name, r, m.table, q)];
      names := names + [name];
      rest := rest + sub;
      pending := pending - {name};
    }
    p.relationships := decls;
    all := rest + {p};
    Finished(m, p, decls, names, rest);
  }

  lemma NothingRealised(m: Model)
    ensures Closed({}) && OneTablePerType({}) && Realised(m, [], [], {})
  {}

  lemma BindableFields(m: Model)
    requires Bindable(m)
    ensures forall n :: n in m.fields ==> IsPublicName(n) && FieldWellFormed(m.fields[n])
  {}

  lemma BindableTarget(m: Model, name: string)
    requires Bindable(m) && name in m.relationships
    ensures Bindable(m.relationships[name].target)
  {}

  // One more declaration, with the policies behind it.
  lemma RealisedMore(m: Model, decls: seq<RelationDecl>, names: seq<string>, rest: set<Policy>, sub: set<Policy>,
                     name: string, q: Policy)
    requires Closed(rest) && Closed(sub) && OneTablePerType(rest) && OneTablePerType(sub)
    requires Realised(m, decls, names, rest) && name in m.relationships && name !in names
    requires q in sub && q.modelType == q.table == m.relationships[name].target.table
    requires Build(q, {}, sub) == Ok(m.relationships[name].target)
    ensures Closed(rest + sub) && OneTablePerType(rest + sub)
    ensures Realised(m, decls + [DeclOfRelationship(name, m.relationships[name], m.table, q)], names + [name],
                     rest + sub)
  {
    hide Build, OneTablePerType;
    assert Closed(rest + sub) by { ClosedUnion(rest, sub); }
    TablesUnion(rest, sub);
    BuildInside(q, {}, sub, {}, rest + sub);
    forall k | 0 <= k < |names| ensures Build(decls[k].policy, {}, rest + sub) == Build(decls[k].policy, {}, rest) {
      BuildInside(decls[k].policy, {}, rest, {}, rest + sub);
    }
  }

  lemma ClosedUnion(a: set<Policy>, b: set<Policy>)
    requires Closed(a) && Closed(b)
    ensures Closed(a + b)
  {}

  lemma TablesUnion(a: set<Policy>, b: set<Policy>)
    requires OneTablePerType(a) && OneTablePerType(b)
    ensures OneTablePerType(a + b)
  {}

  lemma Finished(m: Model, p: Policy, decls: seq<RelationDecl>, names: seq<string>, rest: set<Policy>)
    requires Bindable(m) && Closed(rest) && OneTablePerType(rest) && p !in rest && Realised(m, decls, names, rest)
    requires p.sound && p.table == m.table && p.relationships == decls && BindFields(p.fields, map[]) == Ok(m.fields)
    requires forall n :: n in names <==> n in m.relationships
    ensures Closed(rest + {p}) && OneTablePerType(rest + {p}) && Build(p, {}, rest + {p}) == Ok(m)
  {
    hide Build, BuildRelations, BindFields, RelationSound, Bindable;
    var all := rest + {p};
    assert Inside(decls, all);
    assert Closed(all);
    assert OneTablePerType(all) by {
      forall d | d in decls
        ensures d.table == p.table && d.policy != null && d.policy.table == d.target.table
      {
        var k :| 0 <= k < |decls| && decls[k] == d;
        CompleteTarget(m, names[k]);
      }
    }
    DisjointNames(m);
    BuildUnfolds(p, {}, all);
    assert decls[0..] == decls;
    RelationsRealised(m, decls, names, 0, p, rest);
    var none: set<Policy> := {};
    assert none + {p} == {p} && Done(m, names[..0]) == map[] && Done(m, names) == m.relationships;
  }

  lemma CompleteTarget(m: Model, name: string)
    requires Bindable(m) && name in m.relationships
    ensures m.relationships[name].association.target.table == m.relationships[name].target.table
  {
    assert AssociationComplete(m.relationships[name]);
  }

  lemma DisjointNames(m: Model)
    requires Bindable(m)
    ensures forall n :: n in m.relationships ==> n !in m.fields
  {}
}
