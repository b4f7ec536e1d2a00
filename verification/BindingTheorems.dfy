/** When a policy graph can be bound, and what the schema tree is then. */
module BindingTheorems {
  import opened Common
  import opened Strings
  import opened Schema
  import opened Binding
  import opened Declarations

  // ---- walks through the graph ----

  ghost predicate Links(a: Policy, b: Policy)
    reads a
  {
    exists k :: 0 <= k < |a.relationships| && a.relationships[k].policy == b
  }

  ghost predicate IsWalk(w: seq<Policy>)
    reads w
  {
    w != [] && forall i :: 0 < i < |w| ==> Links(w[i - 1], w[i])
  }

  ghost predicate NoRepeats(w: seq<Policy>) {
    forall i, j :: 0 <= i < j < |w| ==> w[i] != w[j]
  }

  ghost predicate DeclsSound(decls: seq<RelationDecl>, taken: set<string>)
    reads set d | d in decls :: d.policy
  {
    decls == [] ||
    (decls[0].publicName !in taken && decls[0].policy != null && RelationSound(decls[0])
     && DeclsSound(decls[1..], taken + {decls[0].publicName}))
  }

  // Everything that can be said against a policy without binding nested ones.
  ghost predicate LocallySound(p: Policy)
    reads p, set d | d in p.relationships :: d.policy
  {
    var fields := BindFields(p.fields, map[]);
    p.sound && fields.Ok? && DeclsSound(p.relationships, fields.value.Keys)
  }

  // ---- success along every walk ----

  lemma {:induction false} RelationsBuilt(decls: seq<RelationDecl>, fields: set<string>,
                                          done: map<string, Relationship>, active: set<Policy>, all: set<Policy>)
    requires Inside(decls, all) && Closed(all) && BuildRelations(decls, fields, done, active, all).Ok?
    ensures DeclsSound(decls, fields + done.Keys)
    ensures forall k :: 0 <= k < |decls| ==> decls[k].policy != null && Build(decls[k].policy, active, all).Ok?
    decreases |decls|
  {
    hide Build, RelationSound;
    if decls != [] {
      var d := decls[0];
      SoundMeans(d);
      var target := Build(d.policy, active, all).value;
      var more := done[d.publicName := RelationOf(d, target)];
      RelationsBuilt(decls[1..], fields, more, active, all);
      assert fields + more.Keys == fields + done.Keys + {d.publicName};
      assert forall k :: 1 <= k < |decls| ==> decls[k] == decls[1..][k - 1];
    }
  }

  lemma BuiltIsSound(p: Policy, active: set<Policy>, all: set<Policy>)
    requires p in all && Closed(all) && Build(p, active, all).Ok?
    ensures LocallySound(p) && p !in active
    ensures forall q :: Links(p, q) ==> q in all && Build(q, active + {p}, all).Ok?
  {
    hide BindFields, BuildRelations, Closed, DeclsSound, RelationSound;
    assert p !in active by { BuiltIsNew(p, active, all); }
    BuildUnfolds(p, active, all);
    var fields := BindFields(p.fields, map[]).value;
    var none: map<string, Relationship> := map[];
    RelationsBuilt(p.relationships, fields.Keys, none, active + {p}, all);
    assert fields.Keys + none.Keys == fields.Keys;
  }

  lemma BuiltIsNew(p: Policy, active: set<Policy>, all: set<Policy>)
    requires p in all && Closed(all) && Build(p, active, all).Ok?
    ensures p !in active
  {}

  lemma {:induction false} BuiltAlong(w: seq<Policy>, active: set<Policy>, all: set<Policy>)
    requires IsWalk(w) && w[0] in all && Closed(all) && Build(w[0], active, all).Ok?
    ensures NoRepeats(w) && LocallySound(w[|w| - 1]) && forall i :: 0 <= i < |w| ==> w[i] !in active
    decreases |w|
  {
    hide Build, LocallySound, Closed;
    BuiltIsSound(w[0], active, all);
    if |w| > 1 {
      var rest := w[1..];
      assert Links(w[0], w[1]);
      forall i | 0 < i < |rest| ensures Links(rest[i - 1], rest[i]) {
        assert Links(w[i], w[i + 1]);
      }
      BuiltAlong(rest, active + {w[0]}, all);
      forall i, j | 0 <= i < j < |w| ensures w[i] != w[j] {
        assert w[j] == rest[j - 1] && (i > 0 ==> w[i] == rest[i - 1]);
      }
      forall i | 0 <= i < |w| ensures w[i] !in active {
        assert i > 0 ==> w[i] == rest[i - 1];
      }
    }
  }

  // ---- failure at the end of some walk ----

  lemma {:induction false} FailingRelation(decls: seq<RelationDecl>, fields: set<string>,
                                           done: map<string, Relationship>,
                                           active: set<Policy>, all: set<Policy>) returns (k: nat)
    requires Inside(decls, all) && Closed(all) && BuildRelations(decls, fields, done, active, all).Err?
    requires DeclsSound(decls, fields + done.Keys)
    ensures k < |decls| && decls[k].policy != null && decls[k].policy in all && Build(decls[k].policy, active, all).Err?
    decreases |decls|
  {
    hide Build, RelationSound;
    var d := decls[0];
    SoundMeans(d);
    if Build(d.policy, active, all).Err? {
      k := 0;
    } else {
      var target := Build(d.policy, active, all).value;
      var more := done[d.publicName := RelationOf(d, target)];
      assert fields + more.Keys == fields + done.Keys + {d.publicName};
      k := FailingRelation(decls[1..], fields, more, active, all);
      k := k + 1;
    }
  }

  // What can stop the binding at the end of a walk.
  ghost predicate Obstacle(w: seq<Policy>, active: set<Policy>)
    reads *
  {
    IsWalk(w) && (!LocallySound(w[|w| - 1]) || w[|w| - 1] in active || !NoRepeats(w))
  }

  lemma {:induction false} FailureWalk(p: Policy, active: set<Policy>, all: set<Policy>) returns (w: seq<Policy>)
    requires p in all && Closed(all) && Build(p, active, all).Err?
    ensures Obstacle(w, active) && w[0] == p
    decreases |all - active|
  {
    hide LocallySound, BindFields, BuildRelations, DeclsSound, RelationSound;
    w := [p];
    if p !in active && LocallySound(p) {
      BuildUnfolds(p, active, all);
      Shrinks(all, active, p);
      var k := FailingChild(p, active, all);
      var child := p.relationships[k].policy;
      var rest := FailureWalk(child, active + {p}, all);
      w := [p] + rest;
      assert Links(p, child);
      ExtendWalk(p, rest);
      if rest[|rest| - 1] == p {
        assert w[0] == w[|rest|];
      } else if !NoRepeats(rest) {
        var i, j :| 0 <= i < j < |rest| && rest[i] == rest[j];
        assert w[i + 1] == w[j + 1];
      }
    }
  }

  lemma FailingChild(p: Policy, active: set<Policy>, all: set<Policy>) returns (k: nat)
    requires p in all && Closed(all) && p !in active && LocallySound(p) && Build(p, active, all).Err?
    ensures k < |p.relationships| && p.relationships[k].policy != null && p.relationships[k].policy in all
    ensures Build(p.relationships[k].policy, active + {p}, all).Err?
  {
    hide Build, BindFields, BuildRelations, DeclsSound, RelationSound;
    BuildUnfolds(p, active, all);
    var fields := BindFields(p.fields, map[]).value;
    var none: map<string, Relationship> := map[];
    assert fields.Keys + none.Keys == fields.Keys;
    k := FailingRelation(p.relationships, fields.Keys, none, active + {p}, all);
  }

  lemma ExtendWalk(p: Policy, rest: seq<Policy>)
    requires IsWalk(rest) && Links(p, rest[0])
    ensures IsWalk([p] + rest)
  {
    var w := [p] + rest;
    forall i | 0 < i < |w| ensures Links(w[i - 1], w[i]) {
      if i > 1 {
        assert Links(rest[i - 2], rest[i - 1]);
      }
    }
  }

  lemma {:induction false} DeclsSoundExactly(decls: seq<RelationDecl>, taken: set<string>)
    ensures DeclsSound(decls, taken) <==>
      && (forall k :: 0 <= k < |decls| ==> RelationDeclared(decls[k]) && decls[k].publicName !in taken)
      && forall i, j :: 0 <= i < j < |decls| ==> decls[i].publicName != decls[j].publicName
    decreases |decls|
  {
    hide RelationSound, RelationDeclared;
    if decls != [] {
      RelationSoundExactly(decls[0]);
      SoundMeans(decls[0]);
      DeclsSoundExactly(decls[1..], taken + {decls[0].publicName});
      assert forall k :: 1 <= k < |decls| ==> decls[k] == decls[1..][k - 1];
    }
  }

  lemma LocallySoundExactly(p: Policy)
    ensures LocallySound(p) <==> SoundlyDeclared(p)
  {
    hide BindFields, FieldsDeclared, DeclsSound, RelationDeclared;
    FieldsBindExactly(p.fields);
    var fields := BindFields(p.fields, map[]);
    if fields.Ok? {
      FieldsMirrored(p.fields, map[]);
      DeclsSoundExactly(p.relationships, fields.value.Keys);
    }
  }

  /** A policy binds if and only if every walk through its graph visits only soundly declared
      policies, and none of them twice: no cycle is reachable, sharing is fine. */
  lemma BindsExactly(p: Policy, all: set<Policy>)
    requires p in all && Closed(all)
    ensures Build(p, {}, all).Ok? <==>
      forall w: seq<Policy> :: IsWalk(w) && w[0] == p ==> NoRepeats(w) && SoundlyDeclared(w[|w| - 1])
  {
    hide Build, Closed, LocallySound, SoundlyDeclared;
    if Build(p, {}, all).Ok? {
      forall w: seq<Policy> | IsWalk(w) && w[0] == p ensures NoRepeats(w) && SoundlyDeclared(w[|w| - 1]) {
        BuiltAlong(w, {}, all);
        LocallySoundExactly(w[|w| - 1]);
      }
    } else {
      var w := FailureWalk(p, {}, all);
      LocallySoundExactly(w[|w| - 1]);
    }
  }

  // ---- the tree ----

  ghost predicate FieldWellFormed(f: Field) {
    IsValidIdentifier(f.column) && OperatorsSound(f.kind, f.nullable, f.operators)
      && (f.filterable ==> f.operators != [])
  }

  ghost predicate WellFormed(m: Model)
    decreases m
  {
    && (forall n :: n in m.fields ==>
          var f := m.fields[n];
          IsPublicName(n) && FieldWellFormed(f))
    && (forall n :: n in m.relationships ==> IsPublicName(n) && n !in m.fields)
    && (forall n :: n in m.relationships ==> WellFormed(m.relationships[n].target))
  }

  lemma SoundFieldIsWellFormed(d: FieldDecl)
    ensures FieldSound(d) ==> IsPublicName(d.publicName) && FieldWellFormed(FieldOf(d))
  {
    hide OperatorsSound, IsPublicName, IsValidIdentifier;
  }

  lemma {:induction false} FieldsWellFormed(decls: seq<FieldDecl>, fields: map<string, Field>)
    requires BindFields(decls, fields).Ok?
    requires forall n :: n in fields ==> IsPublicName(n) && FieldWellFormed(fields[n])
    ensures var all := BindFields(decls, fields).value;
      forall n :: n in all ==> IsPublicName(n) && FieldWellFormed(all[n])
    decreases |decls|
  {
    hide FieldWellFormed, OperatorsSound, IsPublicName, IsValidIdentifier;
    if decls != [] {
      SoundFieldIsWellFormed(decls[0]);
      FieldsWellFormed(decls[1..], fields[decls[0].publicName := FieldOf(decls[0])]);
    }
  }

  lemma {:induction false} BuiltIsWellFormed(p: Policy, active: set<Policy>, all: set<Policy>)
    requires p in all && Closed(all) && Build(p, active, all).Ok?
    ensures WellFormed(Build(p, active, all).value)
    decreases |all - active|, 0
  {
    hide BindFields, BuildRelations, RelationSound, OperatorsSound, IsPublicName, IsValidIdentifier;
    BuiltIsNew(p, active, all);
    Shrinks(all, active, p);
    FieldsWellFormed(p.fields, map[]);
    var fields := BindFields(p.fields, map[]).value;
    RelationsWellFormed(p.relationships, fields.Keys, map[], active + {p}, all);
  }

  lemma {:induction false} RelationsWellFormed(decls: seq<RelationDecl>, fields: set<string>,
                                               done: map<string, Relationship>, active: set<Policy>, all: set<Policy>)
    requires Inside(decls, all) && Closed(all) && BuildRelations(decls, fields, done, active, all).Ok?
    requires forall n :: n in done ==> IsPublicName(n) && n !in fields && WellFormed(done[n].target)
    ensures var out := BuildRelations(decls, fields, done, active, all).value;
      forall n :: n in out ==> IsPublicName(n) && n !in fields && WellFormed(out[n].target)
    decreases |all - active|, 1 + |decls|
  {
    hide Build, RelationSound, WellFormed, IsPublicName;
    if decls != [] {
      var d := decls[0];
      SoundMeans(d);
      BuiltIsWellFormed(d.policy, active, all);
      var target := Build(d.policy, active, all).value;
      RelationsWellFormed(decls[1..], fields, done[d.publicName := RelationOf(d, target)], active, all);
    }
  }

  ghost function NamesOfFields(decls: seq<FieldDecl>): set<string> { set d | d in decls :: d.publicName }

  /** The tree holds what the policies declare, name by name, and nothing else. */
  ghost predicate Mirrors(p: Policy, m: Model)
    reads *
    decreases m
  {
    && m.table == p.table
    && m.fields.Keys == NamesOfFields(p.fields)
    && (forall d :: d in p.fields ==> d.publicName in m.fields && FieldGiven(d, m.fields[d.publicName]))
    && m.relationships.Keys == (set d | d in p.relationships :: d.publicName)
    && (forall d :: d in p.relationships ==>
          && d.publicName in m.relationships && d.policy != null
          && var r := m.relationships[d.publicName];
             RelationGiven(d, r) && Mirrors(d.policy, r.target))
  }

  lemma FieldNames(decls: seq<FieldDecl>)
    requires decls != []
    ensures forall d :: d in decls <==> d == decls[0] || d in decls[1..]
    ensures NamesOfFields(decls) == {decls[0].publicName} + NamesOfFields(decls[1..])
  {
    assert decls == [decls[0]] + decls[1..];
  }

  lemma NoFieldNames()
    ensures NamesOfFields([]) == {}
  {}

  lemma {:induction false} FieldsMirrored(decls: seq<FieldDecl>, fields: map<string, Field>)
    requires BindFields(decls, fields).Ok?
    ensures var out := BindFields(decls, fields).value;
      && out.Keys == fields.Keys + NamesOfFields(decls)
      && (forall n :: n in fields ==> out[n] == fields[n])
      && (forall d :: d in decls ==> out[d.publicName] == FieldOf(d))
    decreases |decls|
  {
    hide FieldSound, FieldOf, NamesOfFields;
    if decls == [] {
      assert NamesOfFields([]) == {} by { NoFieldNames(); }
    } else {
      FieldNames(decls);
      var d, rest := decls[0], decls[1..];
      var more := fields[d.publicName := FieldOf(d)];
      FieldsMirrored(rest, more);
      hide BindFields;
      var out := BindFields(rest, more).value;
      assert out[d.publicName] == FieldOf(d);
    }
  }

  lemma {:induction false} RelationsMirrored(decls: seq<RelationDecl>, fields: set<string>,
                                             done: map<string, Relationship>, active: set<Policy>, all: set<Policy>)
    requires Inside(decls, all) && Closed(all) && BuildRelations(decls, fields, done, active, all).Ok?
    ensures var out := BuildRelations(decls, fields, done, active, all).value;
      && out.Keys == done.Keys + (set d | d in decls :: d.publicName)
      && (forall n :: n in done ==> out[n] == done[n])
      && (forall d :: d in decls ==>
            && d.policy != null && RelationshipCardinality(d.kind).Some? && Build(d.policy, active, all).Ok?
            && out[d.publicName] == RelationOf(d, Build(d.policy, active, all).value))
    decreases |decls|
  {
    hide Build, RelationSound, RelationOf, Closed, BuildRelations;
    RelationsUnfold(decls, fields, done, active, all);
    if decls != [] {
      var d, rest := decls[0], decls[1..];
      SoundMeans(d);
      var more := done[d.publicName := RelationOf(d, Build(d.policy, active, all).value)];
      RelationsMirrored(rest, fields, more, active, all);
      assert decls == [d] + rest;
      assert more[d.publicName] == RelationOf(d, Build(d.policy, active, all).value);
      assert d.publicName !in done;
    }
  }

  lemma {:induction false} BuiltMirrors(p: Policy, active: set<Policy>, all: set<Policy>)
    requires p in all && Closed(all) && Build(p, active, all).Ok?
    ensures Mirrors(p, Build(p, active, all).value)
    decreases |all - active|
  {
    hide BindFields, BuildRelations, RelationSound, FieldOf, RelationOf, FieldGiven, RelationGiven;
    BuiltIsNew(p, active, all);
    Shrinks(all, active, p);
    BuildUnfolds(p, active, all);
    var fields := BindFields(p.fields, map[]).value;
    FieldsMirrored(p.fields, map[]);
    RelationsMirrored(p.relationships, fields.Keys, map[], active + {p}, all);
    forall d | d in p.fields ensures FieldGiven(d, FieldOf(d)) {
      FieldIsGiven(d);
    }
    forall d | d in p.relationships
      ensures var target := Build(d.policy, active + {p}, all).value;
        Mirrors(d.policy, target) && RelationGiven(d, RelationOf(d, target)) && RelationOf(d, target).target == target
    {
      BuiltMirrors(d.policy, active + {p}, all);
      RelationIsGiven(d, Build(d.policy, active + {p}, all).value);
    }
  }

  // ---- what every bound schema is ----

  /** GORM parses a model type to one table, so an association's own table is its policy's,
      and its target table that of the policy bound to it. */
  ghost predicate OneTablePerType(all: set<Policy>)
    reads all, set p, d | p in all && d in p.relationships :: d.policy
  {
    forall p, d :: p in all && d in p.relationships ==>
      d.table == p.table && (d.policy != null && d.policy.modelType == d.modelType ==> d.policy.table == d.target.table)
  }

  predicate AssociationComplete(r: Relationship) {
    && r.association.target.table == r.target.table && r.association.target.table != ""
    && r.association.references != []
    && (forall k :: 0 <= k < |r.association.references| ==> ReferenceComplete(r.association.references[k]))
    && (r.association.ManyToMany? ==> r.association.join.table != "" && r.cardinality == Many)
  }

  /** A schema binding can answer: well-formed, and complete associations to its targets' own tables. */
  ghost predicate Bindable(m: Model)
    decreases m
  {
    && WellFormed(m) && (m.relationships != map[] ==> m.table != "")
    && (forall n :: n in m.relationships ==> AssociationComplete(m.relationships[n]))
    && (forall n :: n in m.relationships ==> Bindable(m.relationships[n].target))
  }

  lemma BuiltTable(p: Policy, active: set<Policy>, all: set<Policy>)
    requires p in all && Closed(all) && Build(p, active, all).Ok?
    ensures Build(p, active, all).value.table == p.table
  {}

  lemma SoundIsComplete(d: RelationDecl, target: Model)
    requires d.policy != null && RelationSound(d) && target.table == d.target.table
    ensures AssociationComplete(RelationOf(d, target))
  {}

  lemma {:induction false} BuiltIsBindable(p: Policy, active: set<Policy>, all: set<Policy>)
    requires p in all && Closed(all) && OneTablePerType(all) && Build(p, active, all).Ok?
    ensures Bindable(Build(p, active, all).value)
    decreases |all - active|, 0
  {
    hide BindFields, BuildRelations, RelationSound, WellFormed, OneTablePerType, Closed;
    BuiltIsNew(p, active, all);
    Shrinks(all, active, p);
    BuildUnfolds(p, active, all);
    BuiltIsWellFormed(p, active, all);
    var fields := BindFields(p.fields, map[]).value;
    assert DeclaredIn(p.relationships, all) by { Declared(p, all); }
    OwnTable(p, active, all);
    RelationsBindable(p.relationships, fields.Keys, map[], active + {p}, all);
  }

  lemma OwnTable(p: Policy, active: set<Policy>, all: set<Policy>)
    requires p in all && Closed(all) && OneTablePerType(all) && Build(p, active, all).Ok?
    ensures Build(p, active, all).value.relationships != map[] ==> p.table != ""
  {
    hide BindFields, RelationSound, Closed;
    BuiltIsNew(p, active, all);
    BuildUnfolds(p, active, all);
    if p.relationships != [] {
      var d := p.relationships[0];
      assert d in p.relationships;
      SoundMeans(d);
    }
  }

  // Each declaration belongs to some policy of the graph.
  ghost predicate DeclaredIn(decls: seq<RelationDecl>, all: set<Policy>)
    reads all
  {
    forall d :: d in decls ==> exists p :: p in all && d in p.relationships
  }

  lemma Declared(p: Policy, all: set<Policy>)
    requires p in all
    ensures DeclaredIn(p.relationships, all)
  {}

  lemma {:induction false} RelationsBindable(decls: seq<RelationDecl>, fields: set<string>,
                                             done: map<string, Relationship>, active: set<Policy>, all: set<Policy>)
    requires Inside(decls, all) && Closed(all) && OneTablePerType(all) && DeclaredIn(decls, all)
    requires BuildRelations(decls, fields, done, active, all).Ok?
    requires forall n :: n in done ==> AssociationComplete(done[n]) && Bindable(done[n].target)
    ensures var out := BuildRelations(decls, fields, done, active, all).value;
      forall n :: n in out ==> AssociationComplete(out[n]) && Bindable(out[n].target)
    decreases |all - active|, 1 + |decls|
  {
    hide Build, RelationSound, Bindable, AssociationComplete, BuildRelations, Closed;
    RelationsUnfold(decls, fields, done, active, all);
    if decls != [] {
      var d := decls[0];
      SoundMeans(d);
      BuiltIsBindable(d.policy, active, all);
      BuiltTable(d.policy, active, all);
      assert d in decls && forall x :: x in decls[1..] ==> x in decls;
      var p :| p in all && d in p.relationships;
      var target := Build(d.policy, active, all).value;
      SoundIsComplete(d, target);
      RelationsBindable(decls[1..], fields, done[d.publicName := RelationOf(d, target)], active, all);
    }
  }

  // ---- Bind ----

  /** Bind, from a builder that may be nil. It answers exactly when no cycle and no unsound
      policy can be reached, with the tree the policies declare. */
  method Bind(p: Policy?, ghost all: set<Policy>) returns (result: Result<Model>)
    requires Closed(all) && (p != null ==> p in all)
    ensures result.Ok? <==>
      p != null && forall w: seq<Policy> :: IsWalk(w) && w[0] == p ==> NoRepeats(w) && SoundlyDeclared(w[|w| - 1])
    ensures result.Ok? ==> Mirrors(p, result.value) && WellFormed(result.value)
    ensures result.Ok? && OneTablePerType(all) ==> Bindable(result.value)
    ensures result.Err? ==> result.code == InvalidSchema
  {
    hide Build, Closed, SoundlyDeclared, OneTablePerType, Mirrors, WellFormed, Bindable;
    if p == null {
      return Err(InvalidSchema);
    }
    var binder := new Binder();
    result := binder.BuildCore(p, all);
    BindsExactly(p, all);
    if result.Ok? {
      BuiltMirrors(p, {}, all);
      BuiltIsWellFormed(p, {}, all);
      if OneTablePerType(all) {
        BuiltIsBindable(p, {}, all);
      }
    } else {
      BuildFailsWith(p, {}, all);
    }
  }
}
