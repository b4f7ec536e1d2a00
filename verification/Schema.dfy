/** schema.go's bound schema: the public whitelist of one model and, through its
    exposed relationships, of the models it reaches. GORM's association metadata
    appears as the tables, key references and soft-delete columns it resolves to. */
module Schema {
  import opened Common
  import opened Strings
  import Ast

  datatype Kind = String | Bool | Int | Uint | Float | Time | Date | UUID | Decimal | Custom

  datatype Field = Field(column: string, kind: Kind, nullable: bool, filterable: bool, sortable: bool,
                         operators: seq<Ast.CompareOp>)

  datatype Cardinality = One | Many

  // A table with its gorm.DeletedAt columns.
  datatype Storage = Storage(table: string, softDelete: seq<string>)

  // primaryValue != "" marks a constant (polymorphic) reference.
  datatype Reference = Reference(foreignKey: string, primaryKey: string, ownPrimaryKey: bool, primaryValue: string)

  datatype Association =
    | Direct(target: Storage, references: seq<Reference>)                    // has one, belongs to, has many
    | ManyToMany(target: Storage, references: seq<Reference>, join: Storage)

  datatype Model = Model(table: string, fields: map<string, Field>, relationships: map<string, Relationship>)

  datatype Relationship = Relationship(goName: string, cardinality: Cardinality, target: Model,
                                       association: Association)

  /** validPath: slash-separated public names. */
  function ValidPath(path: string): Option<seq<string>> {
    if path == "" then None
    else
      var segments := Split('/', path);
      if forall i :: 0 <= i < |segments| ==> IsPublicName(segments[i]) then Some(segments) else None
  }

  /** collectStorageNames: every table and join table a filter could mention. */
  ghost function StorageNames(model: Model): set<string>
    decreases model, 2
  {
    {model.table} + NamesBehind(model, model.relationships.Keys)
  }

  ghost function NamesBehind(model: Model, exposed: set<string>): set<string>
    requires exposed <= model.relationships.Keys
    decreases model, 1
  {
    set r, n | r in exposed && n in NamesOf(model, r) :: n
  }

  ghost function NamesOf(model: Model, r: string): set<string>
    requires r in model.relationships
    decreases model, 0
  {
    var relationship := model.relationships[r];
    (if relationship.association.ManyToMany? then {relationship.association.join.table} else {})
    + StorageNames(relationship.target)
  }

  method CollectStorageNames(model: Model) returns (names: set<string>)
    ensures names == StorageNames(model)
  {
    names := {model.table};
    var pending := model.relationships.Keys;
    while pending != {}
      invariant pending <= model.relationships.Keys
      invariant names == {model.table} + NamesBehind(model, model.relationships.Keys - pending)
      decreases pending
    {
      var r :| r in pending;
      pending := pending - {r};
      var relationship := model.relationships[r];
      if relationship.association.ManyToMany? {
        names := names + {relationship.association.join.table};
      }
      var nested := CollectStorageNames(relationship.target);
      names := names + nested;
      assert NamesOf(model, r) <= names;
    }
    assert model.relationships.Keys - pending == model.relationships.Keys;
  }

  // Exposed relationships lead along these names from a model to another.
  ghost predicate Reaches(m: Model, path: seq<string>, owner: Model)
    decreases |path|
  {
    if path == [] then owner == m
    else path[0] in m.relationships && Reaches(m.relationships[path[0]].target, path[1..], owner)
  }

  predicate Owns(owner: Model, name: string) {
    name == owner.table ||
    exists r :: r in owner.relationships
      && owner.relationships[r].association.ManyToMany? && owner.relationships[r].association.join.table == name
  }

  lemma {:induction false} ReachedNames(m: Model, path: seq<string>, owner: Model, name: string)
    requires Reaches(m, path, owner) && Owns(owner, name)
    ensures name in StorageNames(m)
    decreases |path|
  {
    if path != [] {
      ReachedNames(m.relationships[path[0]].target, path[1..], owner, name);
      assert name in NamesOf(m, path[0]);
    } else if name != m.table {
      var r :| r in m.relationships
        && m.relationships[r].association.ManyToMany? && m.relationships[r].association.join.table == name;
      assert name in NamesOf(m, r);
    }
  }

  lemma {:induction false} NamesAreReached(m: Model, name: string) returns (path: seq<string>, owner: Model)
    requires name in StorageNames(m)
    ensures Reaches(m, path, owner) && Owns(owner, name)
    decreases m
  {
    if Owns(m, name) {
      return [], m;
    }
    var r :| r in m.relationships && name in NamesOf(m, r);
    var rest, last := NamesAreReached(m.relationships[r].target, name);
    path, owner := [r] + rest, last;
    assert path[1..] == rest;
  }

  /** The reserved names are those of every table and join table that relationships lead to. */
  lemma StorageNamesExactly(m: Model, name: string)
    ensures name in StorageNames(m) <==> exists path, owner :: Reaches(m, path, owner) && Owns(owner, name)
  {
    hide StorageNames, Owns, Reaches;
    if name in StorageNames(m) {
      var path, owner := NamesAreReached(m, name);
      assert Reaches(m, path, owner);
    }
    forall path, owner | Reaches(m, path, owner) && Owns(owner, name) ensures name in StorageNames(m) {
      ReachedNames(m, path, owner, name);
    }
  }
}
