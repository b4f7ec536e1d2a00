/** What a filter says about an object graph, read off the source text's tree with
    lexically scoped variables. */
module FilterMeaning {
  import opened Common
  import opened Strings
  import opened Schema
  import opened Validator
  import S = Sql
  import Like
  import Ast

  datatype World = World(d: S.Dialect, db: S.Database, convert: Convert, includeDeleted: bool)

  // ---- the object graph ----

  predicate KeyEqual(w: World, a: S.Cell, b: S.Cell) { a.Some? && b.Some? && S.SameValue(w.d, a.value, b.value) }

  // A row counts unless one of its soft-delete columns is set; Unscoped counts all rows.
  predicate Live(w: World, storage: Storage, row: S.Row) {
    w.includeDeleted || forall i :: 0 <= i < |storage.softDelete| ==> S.CellOf(row, storage.softDelete[i]).None?
  }

  predicate DirectLink(w: World, reference: Reference, parent: S.Row, child: S.Row) {
    if reference.primaryValue != ""
    then KeyEqual(w, S.CellOf(child, reference.foreignKey), Some(S.Text(reference.primaryValue)))
    else if reference.ownPrimaryKey
    then KeyEqual(w, S.CellOf(child, reference.foreignKey), S.CellOf(parent, reference.primaryKey))
    else KeyEqual(w, S.CellOf(child, reference.primaryKey), S.CellOf(parent, reference.foreignKey))
  }

  predicate JoinLink(w: World, reference: Reference, parent: S.Row, link: S.Row, child: S.Row) {
    if reference.primaryValue != ""
    then KeyEqual(w, S.CellOf(link, reference.foreignKey), Some(S.Text(reference.primaryValue)))
    else if reference.ownPrimaryKey
    then KeyEqual(w, S.CellOf(link, reference.foreignKey), S.CellOf(parent, reference.primaryKey))
    else KeyEqual(w, S.CellOf(link, reference.foreignKey), S.CellOf(child, reference.primaryKey))
  }

  predicate NamesTarget(reference: Reference) { reference.primaryValue == "" && !reference.ownPrimaryKey }

  // A live join row that ties parent and child together.
  predicate Ties(w: World, association: Association, parent: S.Row, link: S.Row, child: S.Row)
    requires association.ManyToMany?
  {
    && link in S.Rows(w.db, association.join.table) && Live(w, association.join, link)
    && (exists i :: 0 <= i < |association.references| && NamesTarget(association.references[i]))
    && forall i :: 0 <= i < |association.references| ==> JoinLink(w, association.references[i], parent, link, child)
  }

  /** child is one of parent's live related rows under the association. */
  ghost predicate IsRelated(w: World, association: Association, parent: S.Row, child: S.Row) {
    && child in S.Rows(w.db, association.target.table) && Live(w, association.target, child)
    && match association
       case Direct(_, references) => forall i :: 0 <= i < |references| ==> DirectLink(w, references[i], parent, child)
       case ManyToMany(_, _, _) => exists link :: Ties(w, association, parent, link, child)
  }

  // ---- the meaning of a filter ----

  datatype Binding = Binding(model: Model, row: S.Row)

  type Leaf = (Model, S.Row) -> S.Truth

  ghost predicate SomeRelated(w: World, relationship: Relationship, row: S.Row, leaf: Leaf) {
    exists child :: IsRelated(w, relationship.association, row, child) && leaf(relationship.target, child) == S.True
  }

  ghost predicate EveryRelated(w: World, relationship: Relationship, row: S.Row, leaf: Leaf) {
    forall child :: IsRelated(w, relationship.association, row, child) ==> leaf(relationship.target, child) == S.True
  }

  /** Along to-one relationships: some live related row makes the rest TRUE. */
  ghost function Through(w: World, model: Model, row: S.Row, path: seq<string>, leaf: Leaf): S.Truth
    decreases |path|, 0
  {
    if path == [] then leaf(model, row)
    else if path[0] !in model.relationships then S.Unknown
    else S.Lift(SomeRelated(w, model.relationships[path[0]], row, AlongLeaf(w, path[1..], leaf)))
  }

  ghost function AlongLeaf(w: World, path: seq<string>, leaf: Leaf): Leaf
    decreases |path|, 1
  {
    (model: Model, row: S.Row) => Through(w, model, row, path, leaf)
  }

  ghost function QuantifierAt(w: World, model: Model, row: S.Row, name: string, quantifier: Ast.QuantifierOp,
                              leaf: Leaf): S.Truth {
    if name !in model.relationships then S.Unknown
    else if quantifier == Ast.All then S.Lift(EveryRelated(w, model.relationships[name], row, leaf))
    else S.Lift(SomeRelated(w, model.relationships[name], row, leaf))
  }

  ghost function TextMeaning(w: World, op: Ast.CompareOp, cell: S.Cell, value: S.Scalar): S.Truth {
    if cell.None? || !cell.value.Text? || !value.Text? then S.Unknown
    else
      match op
      case StartsWith => S.Lift(Like.StartsWith(w.d.same, cell.value.text, value.text))
      case EndsWith => S.Lift(Like.EndsWith(w.d.same, cell.value.text, value.text))
      case _ => S.Lift(Like.Contains(w.d.same, cell.value.text, value.text))
  }

  // A NULL cell equals nothing, not even nothing in a list.
  ghost function ListMeaning(w: World, cell: S.Cell, values: seq<S.Scalar>): S.Truth {
    if cell.None? then S.Unknown
    else S.Lift(exists i :: 0 <= i < |values| && S.SameValue(w.d, cell.value, values[i]))
  }

  ghost function OrderMeaning(w: World, op: Ast.CompareOp, cell: S.Cell, value: S.Scalar): S.Truth {
    if cell.None? then S.Unknown
    else
      match op
      case Eq => S.Lift(S.SameValue(w.d, cell.value, value))
      case Ne => S.Lift(!S.SameValue(w.d, cell.value, value))
      case Gt => S.Lift(S.Below(w.d, value, cell.value))
      case Gte => S.Lift(!S.Below(w.d, cell.value, value))
      case Lt => S.Lift(S.Below(w.d, cell.value, value))
      case Lte => S.Lift(!S.Below(w.d, value, cell.value))
      case _ => S.Unknown
  }

  ghost function CellMeaning(w: World, field: Field, cell: S.Cell, expr: Ast.Expr): S.Truth
    requires expr.Comparison?
  {
    match expr.op
    case IsNull => S.Lift(cell.None?)
    case IsNotNull => S.Lift(cell.Some?)
    case In =>
      var values := ConvertAll(w.convert, field, expr.literals);
      if values.None? then S.Unknown else ListMeaning(w, cell, values.value)
    case NotIn =>
      var values := ConvertAll(w.convert, field, expr.literals);
      if values.None? then S.Unknown else S.Not3(ListMeaning(w, cell, values.value))
    case OtherCompare => S.Unknown
    case Contains | StartsWith | EndsWith =>
      var value := w.convert(field, expr.literal);
      if value.None? then S.Unknown else TextMeaning(w, expr.op, cell, value.value)
    case _ =>
      var value := w.convert(field, expr.literal);
      if value.None? then S.Unknown else OrderMeaning(w, expr.op, cell, value.value)
  }

  ghost function FieldMeaning(w: World, model: Model, row: S.Row, name: string, expr: Ast.Expr): S.Truth
    requires expr.Comparison?
  {
    if name !in model.fields then S.Unknown
    else CellMeaning(w, model.fields[name], S.CellOf(row, model.fields[name].column), expr)
  }

  ghost function FieldLeaf(w: World, name: string, expr: Ast.Expr): Leaf
    requires expr.Comparison?
  {
    (model: Model, row: S.Row) => FieldMeaning(w, model, row, name, expr)
  }

  ghost function QuantifierLeaf(w: World, name: string, quantifier: Ast.QuantifierOp, leaf: Leaf): Leaf {
    (model: Model, row: S.Row) => QuantifierAt(w, model, row, name, quantifier, leaf)
  }

  // Where a path starts: at the root outside quantifiers, at a variable's row inside.
  function PathStart(root: Binding, vars: map<string, Binding>, path: string): Option<(Binding, seq<string>)> {
    var segments := Split('/', path);
    if vars == map[] then Some((root, segments))
    else if segments[0] in vars then Some((vars[segments[0]], segments[1..]))
    else None
  }

  ghost function BodyLeaf(w: World, root: Binding, vars: map<string, Binding>, variable: string, body: Ast.Expr): Leaf
    decreases body, 1
  {
    (model: Model, row: S.Row) => Meaning(w, root, vars[variable := Binding(model, row)], body)
  }

  ghost function PathMeaning(w: World, start: Option<(Binding, seq<string>)>, leaf: string -> Leaf): S.Truth {
    if start.None? || start.value.1 == [] then S.Unknown
    else
      var (at, path) := start.value;
      Through(w, at.model, at.row, path[..|path| - 1], leaf(path[|path| - 1]))
  }

  ghost function Meaning(w: World, root: Binding, vars: map<string, Binding>, expr: Ast.Expr): S.Truth
    decreases expr, 0
  {
    match expr
    case Logical(op, left, right) =>
      (match op
       case And => S.And3(Meaning(w, root, vars, left), Meaning(w, root, vars, right))
       case Or => S.Or3(Meaning(w, root, vars, left), Meaning(w, root, vars, right))
       case OtherLogical => S.Unknown)
    case Not(operand) => S.Not3(Meaning(w, root, vars, operand))
    case Comparison(field, _, _, _) =>
      PathMeaning(w, PathStart(root, vars, field), name => FieldLeaf(w, name, expr))
    case Quantifier(relationship, quantifier, variable, body) =>
      var each := BodyLeaf(w, root, vars, variable, body);
      PathMeaning(w, PathStart(root, vars, relationship), name => QuantifierLeaf(w, name, quantifier, each))
  }
}
