/** What a policy may declare: the conditions on its fields and relationships, and what a
    declaration is bound to, in terms of the declarations alone. */
module Declarations {
  import opened Common
  import opened Strings
  import opened Ast
  import opened Schema
  import opened Binding

  // ---- operators ----

  /** Equality and lists fit every field, order only numbers and times, text operators only
      strings, null tests only pointers. */
  predicate Suits(kind: Kind, pointer: bool, op: CompareOp) {
    match op
    case Eq | Ne | In | NotIn => true
    case Gt | Gte | Lt | Lte => kind in {Int, Uint, Float, Time, Date, Decimal}
    case Contains | StartsWith | EndsWith => kind == String
    case IsNull | IsNotNull => pointer
    case OtherCompare => false
  }

  lemma SuitsExactly(kind: Kind, pointer: bool, op: CompareOp)
    ensures OperatorFits(kind, pointer, op) <==> Suits(kind, pointer, op)
  {}

  ghost predicate Distinct<T>(items: seq<T>) {
    forall i, j :: 0 <= i < j < |items| ==> items[i] != items[j]
  }

  /** The operators a declaration ends up with: its own, or every fitting one if it is
      filterable and names none. */
  ghost predicate OperatorsGiven(d: FieldDecl, operators: seq<CompareOp>) {
    if d.filterable && d.operators == []
    then Distinct(operators) && forall op :: op in operators <==> Suits(d.kind, d.pointer, op)
    else operators == d.operators
  }

  lemma DefaultsGiven(d: FieldDecl)
    ensures OperatorsGiven(d, OperatorsOf(d))
    ensures OperatorsSound(d.kind, d.pointer, OperatorsOf(d)) <==>
      Distinct(d.operators) && forall k :: 0 <= k < |d.operators| ==> Suits(d.kind, d.pointer, d.operators[k])
  {
    hide OperatorFits, Suits;
    forall op ensures OperatorFits(d.kind, d.pointer, op) <==> Suits(d.kind, d.pointer, op) {
      SuitsExactly(d.kind, d.pointer, op);
    }
    if d.filterable && d.operators == [] {
      DefaultsAreSound(d);
      forall op ensures op in OperatorsOf(d) <==> Suits(d.kind, d.pointer, op) {
        DefaultsAreAll(d, op);
        SuitsExactly(d.kind, d.pointer, op);
      }
    }
  }

  lemma DefaultsAreAll(d: FieldDecl, op: CompareOp)
    requires d.filterable && d.operators == []
    ensures op in OperatorsOf(d) <==> OperatorFits(d.kind, d.pointer, op)
  {
    var defaults, nulls := DefaultOperators(d.kind), if d.pointer then [IsNull, IsNotNull] else [];
    assert op in defaults + nulls <==> op in defaults || op in nulls;
    if op in defaults {
      DefaultFits(d.kind, d.pointer, op);
    }
  }

  // ---- fields ----

  predicate PublicName(name: string) { IsValidIdentifier(name) && !IsReservedName(name) }

  ghost predicate FieldDeclared(d: FieldDecl) {
    && PublicName(d.publicName) && d.sound && IsValidIdentifier(d.column)
    && Distinct(d.operators) && forall k :: 0 <= k < |d.operators| ==> Suits(d.kind, d.pointer, d.operators[k])
  }

  ghost predicate FieldsDeclared(decls: seq<FieldDecl>) {
    && (forall k :: 0 <= k < |decls| ==> FieldDeclared(decls[k]))
    && forall i, j :: 0 <= i < j < |decls| ==> decls[i].publicName != decls[j].publicName
  }

  lemma FieldSoundExactly(d: FieldDecl)
    ensures FieldSound(d) <==> FieldDeclared(d)
  {
    hide OperatorsSound, Suits, OperatorsOf;
    DefaultsGiven(d);
  }

  lemma {:induction false} FieldsBindFrom(decls: seq<FieldDecl>, fields: map<string, Field>)
    ensures BindFields(decls, fields).Ok? <==>
      FieldsDeclared(decls) && forall k :: 0 <= k < |decls| ==> decls[k].publicName !in fields
    decreases |decls|
  {
    hide FieldSound, FieldDeclared, FieldOf;
    if decls != [] {
      FieldSoundExactly(decls[0]);
      FieldsBindFrom(decls[1..], fields[decls[0].publicName := FieldOf(decls[0])]);
      assert forall k :: 1 <= k < |decls| ==> decls[k] == decls[1..][k - 1];
    }
  }

  /** Fields bind if and only if they are declared as they may be. */
  lemma FieldsBindExactly(decls: seq<FieldDecl>)
    ensures BindFields(decls, map[]).Ok? <==> FieldsDeclared(decls)
  {
    hide FieldsDeclared;
    FieldsBindFrom(decls, map[]);
  }

  /** What a field is bound to. */
  ghost predicate FieldGiven(d: FieldDecl, f: Field) {
    && f.column == d.column && f.kind == d.kind && f.nullable == d.pointer
    && f.filterable == d.filterable && f.sortable == d.sortable && OperatorsGiven(d, f.operators)
  }

  lemma FieldIsGiven(d: FieldDecl)
    ensures FieldGiven(d, FieldOf(d))
  {
    hide OperatorsOf, OperatorsGiven;
    DefaultsGiven(d);
  }

  // ---- relationships ----

  /** An association with its tables and keys, and a nested policy for its model. */
  ghost predicate RelationDeclared(d: RelationDecl)
    reads d.policy
  {
    && PublicName(d.publicName) && d.sound && d.kind in {HasOne, BelongsTo, HasMany, Many2Many}
    && d.policy != null && d.policy.modelType == d.modelType
    && d.table != "" && d.target.table != "" && d.references != []
    && (forall k :: 0 <= k < |d.references| ==>
          d.references[k].foreignKey != "" && (d.references[k].primaryKey != "" || d.references[k].primaryValue != ""))
    && (d.kind == Many2Many ==> d.join.Some? && d.join.value.table != "")
  }

  lemma RelationSoundExactly(d: RelationDecl)
    ensures RelationSound(d) <==> RelationDeclared(d)
  {}

  /** What a relationship is bound to, besides its nested schema. */
  ghost predicate RelationGiven(d: RelationDecl, r: Relationship) {
    && r.goName == d.goName && r.cardinality == (if d.kind == HasOne || d.kind == BelongsTo then One else Many)
    && r.association == if d.kind == Many2Many && d.join.Some? then ManyToMany(d.target, d.references, d.join.value)
                        else Direct(d.target, d.references)
  }

  lemma RelationIsGiven(d: RelationDecl, target: Model)
    requires d.kind in {HasOne, BelongsTo, HasMany, Many2Many}
    ensures RelationshipCardinality(d.kind).Some? && RelationGiven(d, RelationOf(d, target))
      && RelationOf(d, target).target == target
  {}

  // ---- policies ----

  /** Everything a policy must declare soundly, nested policies aside. */
  ghost predicate SoundlyDeclared(p: Policy)
    reads p, set d | d in p.relationships :: d.policy
  {
    && p.sound && FieldsDeclared(p.fields)
    && (forall k :: 0 <= k < |p.relationships| ==> RelationDeclared(p.relationships[k]))
    && (forall i, j :: 0 <= i < j < |p.relationships| ==>
        p.relationships[i].publicName != p.relationships[j].publicName)
    && forall i, j :: 0 <= i < |p.fields| && 0 <= j < |p.relationships| ==>
         p.fields[i].publicName != p.relationships[j].publicName
  }
}
