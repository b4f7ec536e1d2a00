/** The one name the compiler takes without reserving it is the join alias. Compiled
    filters mean what they say over a root table exactly when it is not named like one. */
module AliasCapture {
  import opened Common
  import opened Strings
  import opened Schema
  import opened Aliases
  import opened Validator
  import opened Compiler
  import opened FilterMeaning
  import opened FilterCorrectness
  import opened BindingTheorems
  import S = Sql
  import Ast

  /** Every accepted filter over every bindable schema rooted at this table is compiled
      faithfully, as far as its LIKE patterns are made of valid UTF-8. */
  ghost predicate FaithfulRoot(table: string) {
    forall w: World, depth: int, model: Model, expr: Ast.Expr, clause: S.Clause, env: S.Env ::
      && model.table == table && Bindable(model) && ValidateFilter(w.convert, depth, model, expr).Ok?
      && Compile(ValidateFilter(w.convert, depth, model, expr).value.0, w.includeDeleted) == Ok(clause)
      && PatternsValid(ValidateFilter(w.convert, depth, model, expr).value.0)
      && S.TotalPreorder(w.d.le) && table in env && "" in env && env[""] == env[table]
      ==> S.Eval(w.d, w.db, env, clause) == Meaning(w, Binding(model, env[table]), map[], expr)
  }

  // ---- a schema whose first alias is gotq_rel_n, over the root table gotq_rel_n_join ----

  function Unused(k: nat): Relationship
    requires k > 0
    decreases k, 1
  {
    Relationship("D", One, Chain(k), Direct(Storage(AliasName(k), []), [Reference("d_id", "id", false, "")]))
  }

  // Tables gotq_rel_1 .. gotq_rel_k, one behind the other.
  function Chain(k: nat): Model
    requires k > 0
    decreases k, 0
  {
    Model(AliasName(k), map[], if k == 1 then map[] else map["d" := Unused(k - 1)])
  }

  const LEAF := Model("t", map["f" := Field("f", String, true, true, false, [Ast.IsNull])], map[])

  const TIES := ManyToMany(Storage("t", []),
    [Reference("owner", "id", true, ""), Reference("target", "id", false, "")], Storage("j", []))

  const MEMBERS := Relationship("R", Many, LEAF, TIES)

  function Trap(n: nat): Model
    requires n > 0
  {
    Model(JoinAlias(AliasName(n)), map[],
          if n == 1 then map["r" := MEMBERS] else map["r" := MEMBERS, "d" := Unused(n - 1)])
  }

  const FILTER := Ast.Quantifier("r", Ast.Any, "x", Ast.Comparison("x/f", Ast.IsNull, Ast.NO_LITERAL, []))

  function Rank(a: S.Scalar): int { if a.Int? then a.value else 0 }

  function One_(): S.Cell { Some(S.Int(1)) }

  function Two(): S.Cell { Some(S.Int(2)) }

  // The join row belongs to row 1; its own id column happens to equal its owner.
  function TrapWorld(): World {
    World(S.Dialect((a, b) => Rank(a) <= Rank(b), (a, b) => a == b, false),
          map["j" := {map["owner" := One_(), "target" := One_(), "id" := One_()]}, "t" := {map["id" := One_()]}],
          (f, l) => None, false)
  }

  const ROOT: S.Row := map["id" := Two()]

  lemma {:induction false} ChainNames(k: nat, name: string)
    requires k > 0
    ensures name in StorageNames(Chain(k)) <==> exists j: nat :: 0 < j <= k && name == AliasName(j)
  {
    hide Chain, StorageNames;
    ChainStep(k);
    if k > 1 {
      ChainNames(k - 1, name);
    }
    assert name == AliasName(k) ==> exists j: nat :: 0 < j <= k && name == AliasName(j);
  }

  lemma ChainStep(k: nat)
    requires k > 0
    ensures StorageNames(Chain(k)) == {AliasName(k)} + if k > 1 then StorageNames(Chain(k - 1)) else {}
  {
    var model := Chain(k);
    if k > 1 {
      assert model.relationships["d"] == Unused(k - 1) && Unused(k - 1).target == Chain(k - 1);
      assert NamesOf(model, "d") == {} + StorageNames(Chain(k - 1));
      assert NamesBehind(model, model.relationships.Keys) == NamesOf(model, "d");
    } else {
      assert model.relationships.Keys == {};
    }
  }

  lemma TrapNames(n: nat, name: string)
    requires n > 0
    ensures name in StorageNames(Trap(n)) <==>
            name in {JoinAlias(AliasName(n)), "t", "j"} || exists j: nat :: 0 < j < n && name == AliasName(j)
  {
    var model := Trap(n);
    assert LEAF.relationships.Keys == {};
    assert StorageNames(LEAF) == {"t"};
    assert NamesOf(model, "r") == {"j"} + {"t"};
    if n > 1 {
      ChainNames(n - 1, name);
      assert NamesOf(model, "d") == {} + StorageNames(Chain(n - 1));
      assert name in NamesBehind(model, model.relationships.Keys) <==>
        name in NamesOf(model, "r") || name in NamesOf(model, "d");
    } else {
      assert name in NamesBehind(model, model.relationships.Keys) <==> name in NamesOf(model, "r");
    }
  }

  lemma TrapAlias(n: nat)
    requires n > 0
    ensures Issue(Names(0, StorageNames(Trap(n)))).0 == AliasName(n)
  {
    var reserved := StorageNames(Trap(n));
    var r := NextFree(0, reserved);
    TrapNames(n, AliasName(r));
    TrapNames(n, AliasName(n));
    assert |AliasName(n)| > 1 && |JoinAlias(AliasName(n))| > |AliasName(n)|;
    if j: nat :| 0 < j < n && AliasName(n) == AliasName(j) {
      AliasNameInjective(n, j);
    }
    assert AliasName(n) !in reserved;
    assert r <= n;
  }

  lemma OneLetterIsPublic(c: char)
    requires 'a' <= c <= 'z'
    ensures IsPublicName([c])
  {
    assert forall k :: k in KEYWORDS ==> |k| > 1;
    assert |[c]| == 1;
  }

  lemma PathTexts()
    ensures ValidPath("r") == Some(["r"]) && ValidPath("x/f") == Some(["x", "f"])
    ensures Split('/', "r") == ["r"] && Split('/', "x/f") == ["x", "f"] && IsPublicName("x")
  {
    OneLetterIsPublic('r');
    OneLetterIsPublic('x');
    OneLetterIsPublic('f');
    hide IsPublicName, Split;
    SplitOfPrefix('/', "r", "");
    SplitOfPrefix('/', "f", "");
    SplitOfPrefix('/', "x", "f");
    assert "x" + ['/'] + "f" == "x/f" && ["x"] + ["f"] == ["x", "f"];
  }

  lemma {:induction false} ChainIsBindable(k: nat)
    requires k > 0
    ensures Bindable(Chain(k))
  {
    hide IsPublicName, AliasName;
    OneLetterIsPublic('d');
    AliasIsSomething(k);
    if k > 1 {
      ChainIsBindable(k - 1);
      AliasIsSomething(k - 1);
      assert forall n :: n in Chain(k).relationships ==> n == "d";
      assert Chain(k).relationships["d"] == Unused(k - 1);
    }
  }

  lemma AliasIsSomething(n: nat)
    ensures AliasName(n) != "" && JoinAlias(AliasName(n)) != ""
  {}

  lemma MembersAreBindable()
    ensures AssociationComplete(MEMBERS) && Bindable(LEAF)
  {
    OneLetterIsPublic('f');
    hide IsPublicName;
    assert LEAF.relationships.Keys == {};
  }

  lemma TrapIsBindable(n: nat)
    requires n > 0
    ensures Bindable(Trap(n))
  {
    hide IsPublicName, AliasName, JoinAlias;
    OneLetterIsPublic('r');
    OneLetterIsPublic('d');
    MembersAreBindable();
    AliasIsSomething(n);
    if n > 1 {
      ChainIsBindable(n - 1);
      AliasIsSomething(n - 1);
    }
  }

  function TrapBody(n: nat): S.Clause { S.IsNull(S.Column(AliasName(n), "f")) }

  function TrapClause(n: nat): S.Clause
    requires n > 0
  {
    RelationshipSql(TIES, JoinAlias(AliasName(n)), AliasName(n), TrapBody(n), AnyMode, false)
  }

  lemma TrapSteps(n: nat)
    requires n > 0
    ensures var model := Trap(n); var names := Names(0, StorageNames(model)); var (alias, issued) := Issue(names);
      QuantifierSteps(2, RootScope(model), {}, FILTER, names)
        == Ok(Walked([Step(MEMBERS, model.table, alias)], LEAF, alias, issued))
  {
    hide StorageNames, NextFree;
    PathTexts();
    TrapAlias(n);
    var model := Trap(n);
    var names := Names(0, StorageNames(model));
    var (alias, issued) := Issue(names);
    assert Walk(LEAF, alias, [], true, issued) == Ok(Walked([], LEAF, alias, issued));
    assert ["r"][1..] == [];
    var step := Step(MEMBERS, model.table, alias);
    assert Walk(model, model.table, ["r"], true, names) == Ok(Walked([step] + [], LEAF, alias, issued));
    assert [step] + [] == [step];
  }

  lemma TrapBodyResolves(alias: string, issued: Names)
    ensures PathComparison(TrapWorld().convert, 2, Scope(LEAF, alias, "x", true), FILTER.body, issued)
      == Ok((Compared(LEAF.fields["f"], alias, Ast.IsNull, None, []), issued))
  {
    hide NextFree, IsPublicName, Split, KEYWORDS;
    PathTexts();
    assert ["x", "f"][1..] == ["f"] && ["f"][..0] == [];
    assert Walk(LEAF, alias, [], false, issued) == Ok(Walked([], LEAF, alias, issued));
  }

  lemma TrapCompiles(n: nat)
    requires n > 0
    ensures ValidateFilter(TrapWorld().convert, 2, Trap(n), FILTER).Ok?
    ensures Compile(ValidateFilter(TrapWorld().convert, 2, Trap(n), FILTER).value.0, false) == Ok(TrapClause(n))
    ensures PatternsValid(ValidateFilter(TrapWorld().convert, 2, Trap(n), FILTER).value.0)
  {
    hide StorageNames, NextFree, IsPublicName, Split, KEYWORDS, QuantifierSteps, PathComparison;
    TrapAlias(n);
    TrapSteps(n);
    var model := Trap(n);
    var (alias, issued) := Issue(Names(0, StorageNames(model)));
    TrapBodyResolves(alias, issued);
    var step := Step(MEMBERS, model.table, alias);
    var compared := Compared(LEAF.fields["f"], alias, Ast.IsNull, None, []);
    assert WrapQuantifier([step], Ast.Any, compared) == Related(MEMBERS, model.table, alias, compared, AnyMode) by {
      assert [step][..0] == [];
    }
  }

  lemma TrapMeansFalse(n: nat)
    requires n > 0
    ensures Meaning(TrapWorld(), Binding(Trap(n), ROOT), map[], FILTER) == S.False
  {
    PathTexts();
    var w, model := TrapWorld(), Trap(n);
    var each := BodyLeaf(w, Binding(model, ROOT), map[], "x", FILTER.body);
    assert !SomeRelated(w, MEMBERS, ROOT, each) by {
      forall child ensures !IsRelated(w, TIES, ROOT, child) {
        forall link | link in S.Rows(w.db, "j") ensures !Ties(w, TIES, ROOT, link, child) {
          assert !JoinLink(w, TIES.references[0], ROOT, link, child);
        }
      }
    }
    assert ["r"][..0] == [];
  }

  lemma TrapJoinParts(n: nat)
    ensures var joinAlias := JoinAlias(AliasName(n));
      && JoinTargets(joinAlias, AliasName(n), TIES.references) ==
           [ColumnEquality(joinAlias, "target", AliasName(n), "id")]
      && Correlations(joinAlias, joinAlias, TIES.references) == [ColumnEquality(joinAlias, "owner", joinAlias, "id")]
  {
    var joinAlias, rest := JoinAlias(AliasName(n)), TIES.references[1..];
    assert rest == [Reference("target", "id", false, "")] && rest[1..] == [];
    assert JoinTargets(joinAlias, AliasName(n), rest[1..]) == [];
    assert JoinTargets(joinAlias, AliasName(n), rest) == [ColumnEquality(joinAlias, "target", AliasName(n), "id")];
    assert Correlations(joinAlias, joinAlias, rest[1..]) == [];
    assert Correlations(joinAlias, joinAlias, rest) == [];
  }

  lemma TrapEvaluatesTrue(n: nat, env: S.Env)
    requires n > 0
    requires env == map[JoinAlias(AliasName(n)) := ROOT, "" := ROOT]
    ensures S.Eval(TrapWorld().d, TrapWorld().db, env, TrapClause(n)) == S.True
  {
    var w, alias := TrapWorld(), AliasName(n);
    var joinAlias := JoinAlias(alias);
    assert |joinAlias| > |alias|;
    var link: S.Row := map["owner" := One_(), "target" := One_(), "id" := One_()];
    var child: S.Row := map["id" := One_()];
    var inner := env[joinAlias := link][alias := child];
    var target := ColumnEquality(joinAlias, "target", alias, "id");
    var owner := ColumnEquality(joinAlias, "owner", joinAlias, "id");
    assert TIES.references[1..] == [TIES.references[1]] && TIES.references[1..][1..] == [];
    var noDeletes: seq<S.Clause> := [];
    TrapJoinParts(n);
    assert SoftDeleteConditions(TIES.join, joinAlias) + SoftDeleteConditions(TIES.target, alias) == noDeletes;
    var where := JoinWhere(TIES, joinAlias, alias, TrapBody(n), false);
    assert where == S.And([owner] + noDeletes + [TrapBody(n)]);
    TrapConditionsHold(n, inner, link, child);
    var clause := TrapClause(n);
    S.EvalExistsJoin(w.d, w.db, env, clause);
    assert S.JoinedPair(w.d, w.db, env, clause, link, child);
  }

  lemma TrapConditionsHold(n: nat, inner: S.Env, link: S.Row, child: S.Row)
    requires link == map["owner" := One_(), "target" := One_(), "id" := One_()] && child == map["id" := One_()]
    requires JoinAlias(AliasName(n)) in inner && inner[JoinAlias(AliasName(n))] == link
    requires AliasName(n) in inner && inner[AliasName(n)] == child
    ensures var w, alias := TrapWorld(), AliasName(n);
      var joinAlias := JoinAlias(alias);
      var target := ColumnEquality(joinAlias, "target", alias, "id");
      var owner := ColumnEquality(joinAlias, "owner", joinAlias, "id");
      var none: seq<S.Clause> := [];
      && S.Eval(w.d, w.db, inner, S.And([target])) == S.True
      && S.Eval(w.d, w.db, inner, S.And([owner] + none + [TrapBody(n)])) == S.True
  {
    var w, alias := TrapWorld(), AliasName(n);
    var joinAlias := JoinAlias(alias);
    var target := ColumnEquality(joinAlias, "target", alias, "id");
    var owner := ColumnEquality(joinAlias, "owner", joinAlias, "id");
    EqualityMeaning(w, joinAlias, "target", alias, "id", inner);
    EqualityMeaning(w, joinAlias, "owner", joinAlias, "id", inner);
    S.EvalSingle(w.d, w.db, inner, target);
    S.EvalSingle(w.d, w.db, inner, owner);
    ThreeConditions(w, [owner], [], TrapBody(n), inner);
    S.EvalAllTrue(w.d, w.db, inner, []);
    S.EvalConnectives(w.d, w.db, inner, [target]);
    S.EvalConnectives(w.d, w.db, inner, [owner] + [] + [TrapBody(n)]);
  }

  /** Over gotq_rel_n_join the many-to-many correlation reads the join row instead of
      the root row: the compiled filter is TRUE of a row the filter is false of. */
  lemma RootTableCaptured(n: nat)
    requires n > 0
    ensures !FaithfulRoot(JoinAlias(AliasName(n)))
  {
    hide FaithfulRoot, ValidateFilter, Compile, Meaning, S.Eval, TrapClause, JoinAlias, Bindable, PatternsValid;
    var w, table := TrapWorld(), JoinAlias(AliasName(n));
    var env: S.Env := map[table := ROOT, "" := ROOT];
    TrapIsBindable(n);
    TrapCompiles(n);
    TrapMeansFalse(n);
    TrapEvaluatesTrue(n, env);
    if FaithfulRoot(table) {
      FaithfulInstance(table, w, 2, Trap(n), FILTER, TrapClause(n), env);
    }
  }

  lemma FaithfulInstance(table: string, w: World, depth: int, model: Model, expr: Ast.Expr, clause: S.Clause,
                         env: S.Env)
    requires FaithfulRoot(table)
    requires model.table == table && Bindable(model) && ValidateFilter(w.convert, depth, model, expr).Ok?
    requires Compile(ValidateFilter(w.convert, depth, model, expr).value.0, w.includeDeleted) == Ok(clause)
    requires PatternsValid(ValidateFilter(w.convert, depth, model, expr).value.0)
    requires S.TotalPreorder(w.d.le) && table in env && "" in env && env[""] == env[table]
    ensures S.Eval(w.d, w.db, env, clause) == Meaning(w, Binding(model, env[table]), map[], expr)
  {
    hide ValidateFilter, Compile, Meaning, S.Eval, S.TotalPreorder, Bindable, PatternsValid;
  }

  /** Compilation is faithful over a root table if and only if its name is not a join alias. */
  lemma FaithfulIff(table: string)
    ensures FaithfulRoot(table) <==> !IsJoinAlias(table)
  {
    if IsJoinAlias(table) {
      var n: nat :| n > 0 && table == JoinAlias(AliasName(n));
      RootTableCaptured(n);
    } else {
      hide ValidateFilter, Compile, Meaning, S.Eval, S.TotalPreorder, IsJoinAlias, Bindable, PatternsValid;
      forall w: World, depth: int, model: Model, expr: Ast.Expr, clause: S.Clause, env: S.Env |
        && model.table == table && Bindable(model) && ValidateFilter(w.convert, depth, model, expr).Ok?
        && Compile(ValidateFilter(w.convert, depth, model, expr).value.0, w.includeDeleted) == Ok(clause)
        && PatternsValid(ValidateFilter(w.convert, depth, model, expr).value.0)
        && S.TotalPreorder(w.d.le) && table in env && "" in env && env[""] == env[table]
        ensures S.Eval(w.d, w.db, env, clause) == Meaning(w, Binding(model, env[table]), map[], expr)
      {
        CompiledFilterMeansSource(w, depth, model, expr, clause, env);
      }
    }
  }
}
