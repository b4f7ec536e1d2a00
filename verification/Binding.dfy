/** schema.go's buildCore: a graph of policies, possibly cyclic, bound into a finite
    schema tree. Reflection, GORM lookups and options contribute one verdict each. */
module Binding {
  import opened Common
  import opened Strings
  import opened Ast
  import opened Schema

  // sound: the options apply, the Go field resolves, its kind and column are found.
  datatype FieldDecl = FieldDecl(publicName: string, sound: bool, column: string, kind: Kind, pointer: bool,
                                 filterable: bool, sortable: bool, operators: seq<CompareOp>)

  // The type of a GORM association.
  datatype RelationKind = HasOne | BelongsTo | HasMany | Many2Many | OtherRelation

  // sound: the options apply and the Go field resolves to a readable, non-polymorphic
  // association, whose metadata is kind, tables, references and, for Many2Many, join
  // table. Empty names stand for missing metadata, a null policy for an invalid one.
  datatype RelationDecl = RelationDecl(publicName: string, sound: bool, goName: string, kind: RelationKind,
                                       table: string, target: Storage, references: seq<Reference>,
                                       join: Option<Storage>, modelType: string, policy: Policy?)

  // A SchemaBuilder; sound: its model type is a struct that GORM can parse.
  class Policy {
    var modelType: string
    var sound: bool
    var table: string
    var fields: seq<FieldDecl>
    var relationships: seq<RelationDecl>

    constructor (modelType: string, table: string)
      ensures this.modelType == modelType && this.table == table && sound && fields == [] && relationships == []
    {
      this.modelType, this.table := modelType, table;
      sound, fields, relationships := true, [], [];
    }
  }

  // ---- operators ----

  function DefaultOperators(kind: Kind): seq<CompareOp> {
    match kind
    case String => [Eq, Ne, CompareOp.Contains, StartsWith, EndsWith, In, NotIn]
    case Bool => [Eq, Ne, In, NotIn]
    case UUID => [Eq, Ne, In, NotIn]
    case Custom => [Eq, Ne, In, NotIn]
    case Int => [Eq, Ne, Gt, Gte, Lt, Lte, In, NotIn]
    case Uint => [Eq, Ne, Gt, Gte, Lt, Lte, In, NotIn]
    case Float => [Eq, Ne, Gt, Gte, Lt, Lte, In, NotIn]
    case Time => [Eq, Ne, Gt, Gte, Lt, Lte, In, NotIn]
    case Date => [Eq, Ne, Gt, Gte, Lt, Lte, In, NotIn]
    case Decimal => [Eq, Ne, Gt, Gte, Lt, Lte, In, NotIn]
  }

  predicate OperatorFits(kind: Kind, pointer: bool, op: CompareOp) {
    if op == IsNull || op == IsNotNull then pointer else op in DefaultOperators(kind)
  }

  function OperatorsOf(d: FieldDecl): seq<CompareOp> {
    if d.filterable && d.operators == [] then DefaultOperators(d.kind) + (if d.pointer then [IsNull, IsNotNull] else [])
    else d.operators
  }

  ghost predicate OperatorsSound(kind: Kind, pointer: bool, operators: seq<CompareOp>) {
    && (forall k :: 0 <= k < |operators| ==> OperatorFits(kind, pointer, operators[k]))
    && forall j, k :: 0 <= j < k < |operators| ==> operators[j] != operators[k]
  }

  /** The defaults a field gets pass the checks that explicit operators must pass. */
  lemma DefaultsAreSound(d: FieldDecl)
    requires d.filterable && d.operators == []
    ensures OperatorsSound(d.kind, d.pointer, OperatorsOf(d))
  {
    hide OperatorFits;
    var defaults := DefaultOperators(d.kind);
    forall k | 0 <= k < |defaults| ensures OperatorFits(d.kind, d.pointer, defaults[k]) {
      DefaultFits(d.kind, d.pointer, defaults[k]);
    }
    if d.pointer {
      NullFits(d.kind);
    }
  }

  lemma DefaultFits(kind: Kind, pointer: bool, op: CompareOp)
    requires op in DefaultOperators(kind)
    ensures OperatorFits(kind, pointer, op) && op != IsNull && op != IsNotNull
  {}

  lemma NullFits(kind: Kind)
    ensures OperatorFits(kind, true, IsNull) && OperatorFits(kind, true, IsNotNull)
  {}

  method CheckOperators(kind: Kind, pointer: bool, operators: seq<CompareOp>) returns (ok: bool)
    ensures ok == OperatorsSound(kind, pointer, operators)
  {
    hide OperatorFits;
    var operatorSet := {};
    for i := 0 to |operators|
      invariant OperatorsSound(kind, pointer, operators[..i])
      invariant forall op :: op in operatorSet <==> op in operators[..i]
    {
      assert operators[..i + 1] == operators[..i] + [operators[i]];
      if !OperatorFits(kind, pointer, operators[i]) || operators[i] in operatorSet {
        return false;
      }
      operatorSet := operatorSet + {operators[i]};
    }
    assert operators[..|operators|] == operators;
    return true;
  }

  // ---- fields ----

  ghost predicate FieldSound(d: FieldDecl) {
    IsPublicName(d.publicName) && d.sound && IsValidIdentifier(d.column)
      && OperatorsSound(d.kind, d.pointer, OperatorsOf(d))
  }

  function FieldOf(d: FieldDecl): Field {
    Field(d.column, d.kind, d.pointer, d.filterable, d.sortable, OperatorsOf(d))
  }

  ghost function BindFields(decls: seq<FieldDecl>, fields: map<string, Field>): Result<map<string, Field>> {
    if decls == [] then Ok(fields)
    else if !FieldSound(decls[0]) || decls[0].publicName in fields then Err(InvalidSchema)
    else BindFields(decls[1..], fields[decls[0].publicName := FieldOf(decls[0])])
  }

  method BuildFields(decls: seq<FieldDecl>) returns (result: Result<map<string, Field>>)
    ensures result == BindFields(decls, map[])
  {
    hide FieldOf, OperatorsSound;
    var fields: map<string, Field> := map[];
    assert decls[0..] == decls;
    for i := 0 to |decls|
      invariant BindFields(decls[i..], fields) == BindFields(decls, map[])
    {
      var d := decls[i];
      assert decls[i..][0] == d && decls[i..][1..] == decls[i + 1..];
      if !IsPublicName(d.publicName) || d.publicName in fields || !d.sound || !IsValidIdentifier(d.column) {
        return Err(InvalidSchema);
      }
      var ok := CheckOperators(d.kind, d.pointer, OperatorsOf(d));
      if !ok {
        return Err(InvalidSchema);
      }
      fields := fields[d.publicName := FieldOf(d)];
    }
    return Ok(fields);
  }

  // ---- relationships ----

  function RelationshipCardinality(kind: RelationKind): Option<Cardinality> {
    match kind
    case HasOne => Some(One)
    case BelongsTo => Some(One)
    case HasMany => Some(Many)
    case Many2Many => Some(Many)
    case OtherRelation => None
  }

  predicate ReferenceComplete(r: Reference) { r.foreignKey != "" && (r.primaryValue == "" ==> r.primaryKey != "") }

  predicate MetadataComplete(d: RelationDecl) {
    && d.table != "" && d.target.table != "" && d.references != []
    && (d.kind == Many2Many ==> d.join.Some? && d.join.value.table != "")
    && forall k :: 0 <= k < |d.references| ==> ReferenceComplete(d.references[k])
  }

  method ValidateRelationshipMetadata(d: RelationDecl) returns (ok: bool)
    ensures ok == MetadataComplete(d)
  {
    if d.table == "" || d.target.table == "" || |d.references| == 0 {
      return false;
    }
    if d.kind == Many2Many && (d.join.None? || d.join.value.table == "") {
      return false;
    }
    for k := 0 to |d.references|
      invariant forall j :: 0 <= j < k ==> ReferenceComplete(d.references[j])
    {
      if d.references[k].foreignKey == "" || (d.references[k].primaryValue == "" && d.references[k].primaryKey == "") {
        return false;
      }
    }
    return true;
  }

  // What is checked of a relationship besides its nested policy and its name's novelty.
  predicate RelationSound(d: RelationDecl)
    reads d.policy
  {
    && IsPublicName(d.publicName) && d.sound && MetadataComplete(d) && RelationshipCardinality(d.kind).Some?
    && d.policy != null
    && d.policy.modelType == d.modelType
  }

  function AssociationOf(d: RelationDecl): Association {
    if d.kind == Many2Many && d.join.Some? then ManyToMany(d.target, d.references, d.join.value)
    else Direct(d.target, d.references)
  }

  function RelationOf(d: RelationDecl, target: Model): Relationship
    requires RelationshipCardinality(d.kind).Some?
  {
    Relationship(d.goName, RelationshipCardinality(d.kind).value, target, AssociationOf(d))
  }

  // A set of policies that nested policies do not leave.
  ghost predicate Closed(all: set<Policy>)
    reads all
  {
    forall p :: p in all ==> Inside(p.relationships, all)
  }

  ghost predicate Inside(decls: seq<RelationDecl>, all: set<Policy>) {
    forall k :: 0 <= k < |decls| && decls[k].policy != null ==> decls[k].policy in all
  }

  /** The schema of a policy while the policies in active are being bound. */
  ghost function Build(p: Policy, active: set<Policy>, all: set<Policy>): Result<Model>
    requires p in all && Closed(all)
    reads all
    decreases |all - active|, 0
  {
    if p in active || !p.sound then Err(InvalidSchema)
    else
      var fields :- BindFields(p.fields, map[]);
      Shrinks(all, active, p);
      var relationships :- BuildRelations(p.relationships, fields.Keys, map[], active + {p}, all);
      Ok(Model(p.table, fields, relationships))
  }

  ghost function BuildRelations(decls: seq<RelationDecl>, fields: set<string>, done: map<string, Relationship>,
                                active: set<Policy>, all: set<Policy>): Result<map<string, Relationship>>
    requires Inside(decls, all) && Closed(all)
    reads all
    decreases |all - active|, 1 + |decls|
  {
    if decls == [] then Ok(done)
    else
      var d := decls[0];
      if d.publicName in fields || d.publicName in done || d.policy == null || !RelationSound(d) then Err(InvalidSchema)
      else
        var target :- Build(d.policy, active, all);
        BuildRelations(decls[1..], fields, done[d.publicName := RelationOf(d, target)], active, all)
  }

  /** One declared relationship, given the names taken before it. */
  ghost function OneRelation(d: RelationDecl, taken: set<string>, active: set<Policy>,
                             all: set<Policy>): Result<Relationship>
    requires Inside([d], all) && Closed(all)
    reads all, d.policy
  {
    if d.publicName in taken || d.policy == null || !RelationSound(d) then Err(InvalidSchema)
    else
      assert [d][0] == d;
      var target :- Build(d.policy, active, all);
      Ok(RelationOf(d, target))
  }

  lemma OneByOne(decls: seq<RelationDecl>, fields: set<string>, done: map<string, Relationship>, active: set<Policy>,
                 all: set<Policy>)
    requires decls != [] && Inside(decls, all) && Closed(all)
    ensures Inside([decls[0]], all) && Inside(decls[1..], all)
    ensures var one := OneRelation(decls[0], fields + done.Keys, active, all);
      BuildRelations(decls, fields, done, active, all) ==
        if one.Err? then Err(one.code)
        else BuildRelations(decls[1..], fields, done[decls[0].publicName := one.value], active, all)
  {
    hide Build, RelationSound;
    assert [decls[0]][0] == decls[0];
    SoundMeans(decls[0]);
  }

  lemma Shrinks(all: set<Policy>, active: set<Policy>, p: Policy)
    requires p in all && p !in active
    ensures |all - (active + {p})| < |all - active|
  {
    assert all - (active + {p}) == (all - active) - {p};
  }

  class Binder {
    var active: set<Policy>

    constructor ()
      ensures active == {}
    {
      active := {};
    }

    /** buildCore. It terminates on every finite policy graph and leaves the active set
        as it found it, whether it succeeds or not. */
    method BuildCore(p: Policy, ghost all: set<Policy>) returns (result: Result<Model>)
      requires p in all && Closed(all)
      modifies this
      ensures active == old(active)
      ensures result == Build(p, old(active), all)
      decreases |all - active|, 0
    {
      hide BindFields, RelationSound, Closed, Inside;
      if p in active {
        return Err(InvalidSchema);
      }
      ghost var before := active;
      Shrinks(all, before, p);
      active := active + {p};
      result := BuildInside(p, before, all);
      active := active - {p};
      assert active == before;
    }

    method BuildInside(p: Policy, ghost before: set<Policy>, ghost all: set<Policy>) returns (result: Result<Model>)
      requires p in all && Closed(all) && p !in before && active == before + {p}
      requires |all - active| < |all - before|
      modifies this
      ensures active == old(active)
      ensures result == Build(p, before, all)
      decreases |all - active|, 2
    {
      hide BindFields, RelationSound, Build, BuildRelations, OneRelation;
      assert Inside(p.relationships, all);
      BuildUnfolds(p, before, all);
      if !p.sound {
        return Err(InvalidSchema);
      }
      var fields :- BuildFields(p.fields);
      var relationships: map<string, Relationship> := map[];
      var decls := p.relationships;
      assert decls[0..] == decls;
      for i := 0 to |decls|
        invariant active == old(active)
        invariant BuildRelations(decls[i..], fields.Keys, relationships, active, all)
          == BuildRelations(decls, fields.Keys, map[], active, all)
      {
        assert decls[i..][0] == decls[i] && decls[i..][1..] == decls[i + 1..];
        OneByOne(decls[i..], fields.Keys, relationships, active, all);
        var relationship :- BuildRelation(decls[i], fields.Keys + relationships.Keys, all);
        relationships := relationships[decls[i].publicName := relationship];
      }
      RelationsUnfold(decls[|decls|..], fields.Keys, relationships, active, all);
      return Ok(Model(p.table, fields, relationships));
    }

    method BuildRelation(d: RelationDecl, taken: set<string>, ghost all: set<Policy>)
      returns (result: Result<Relationship>)
      requires Inside([d], all) && Closed(all)
      modifies this
      ensures active == old(active)
      ensures result == OneRelation(d, taken, active, all)
      decreases |all - active|, 1
    {
      hide Build, MetadataComplete;
      assert [d][0] == d;
      if !IsPublicName(d.publicName) || d.publicName in taken || !d.sound {
        return Err(InvalidSchema);
      }
      var cardinality := RelationshipCardinality(d.kind);
      if cardinality.None? || d.policy == null {
        return Err(InvalidSchema);
      }
      var target := BuildCore(d.policy, all);
      if target.Err? {
        BuildFailsWith(d.policy, active, all);
        return Err(InvalidSchema);
      }
      if d.policy.modelType != d.modelType {
        return Err(InvalidSchema);
      }
      var complete := ValidateRelationshipMetadata(d);
      if !complete {
        return Err(InvalidSchema);
      }
      return Ok(RelationOf(d, target.value));
    }
  }

  lemma BuildUnfolds(p: Policy, active: set<Policy>, all: set<Policy>)
    requires p in all && Closed(all) && p !in active
    ensures Inside(p.relationships, all)
    ensures Build(p, active, all) ==
      var fields := BindFields(p.fields, map[]);
      if !p.sound then Err(InvalidSchema)
      else if fields.Err? then Err(fields.code)
      else
        var relationships := BuildRelations(p.relationships, fields.value.Keys, map[], active + {p}, all);
        if relationships.Err? then Err(relationships.code) else Ok(Model(p.table, fields.value, relationships.value))
  {}

  lemma RelationsUnfold(decls: seq<RelationDecl>, fields: set<string>, done: map<string, Relationship>,
                        active: set<Policy>, all: set<Policy>)
    requires Inside(decls, all) && Closed(all)
    ensures decls == [] ==> BuildRelations(decls, fields, done, active, all) == Ok(done)
    ensures decls != [] ==>
      var d := decls[0];
      if d.publicName in fields || d.publicName in done || d.policy == null || !RelationSound(d)
      then BuildRelations(decls, fields, done, active, all) == Err(InvalidSchema)
      else
        var target := Build(d.policy, active, all);
        var spec := BuildRelations(decls, fields, done, active, all);
        if target.Err? then spec == Err(target.code)
        else spec == BuildRelations(decls[1..], fields, done[d.publicName := RelationOf(d, target.value)], active, all)
  {}

  lemma SoundMeans(d: RelationDecl)
    ensures RelationSound(d) ==>
      IsPublicName(d.publicName) && d.sound && RelationshipCardinality(d.kind).Some? && d.policy != null
        && MetadataComplete(d) && d.policy.modelType == d.modelType
  {}

  lemma {:induction false} FieldsFailWith(decls: seq<FieldDecl>, fields: map<string, Field>)
    ensures BindFields(decls, fields).Err? ==> BindFields(decls, fields).code == InvalidSchema
  {
    if decls != [] {
      FieldsFailWith(decls[1..], fields[decls[0].publicName := FieldOf(decls[0])]);
    }
  }

  lemma {:induction false} BuildFailsWith(p: Policy, active: set<Policy>, all: set<Policy>)
    requires p in all && Closed(all)
    ensures Build(p, active, all).Err? ==> Build(p, active, all).code == InvalidSchema
    decreases |all - active|, 0
  {
    hide BindFields, RelationSound;
    if p !in active && p.sound {
      FieldsFailWith(p.fields, map[]);
      Shrinks(all, active, p);
      var fields := BindFields(p.fields, map[]);
      if fields.Ok? {
        RelationsFailWith(p.relationships, fields.value.Keys, map[], active + {p}, all);
      }
    }
  }

  lemma {:induction false} RelationsFailWith(decls: seq<RelationDecl>, fields: set<string>,
                                             done: map<string, Relationship>, active: set<Policy>, all: set<Policy>)
    requires Inside(decls, all) && Closed(all)
    ensures BuildRelations(decls, fields, done, active, all).Err? ==>
      BuildRelations(decls, fields, done, active, all).code == InvalidSchema
    decreases |all - active|, 1 + |decls|
  {
    hide BindFields, RelationSound, Build;
    if decls != [] && decls[0].policy != null {
      var d := decls[0];
      SoundMeans(d);
      BuildFailsWith(d.policy, active, all);
      var target := Build(d.policy, active, all);
      if target.Ok? && RelationSound(d) && RelationshipCardinality(d.kind).Some? {
        RelationsFailWith(decls[1..], fields, done[d.publicName := RelationOf(d, target.value)], active, all);
      }
    }
  }
}
