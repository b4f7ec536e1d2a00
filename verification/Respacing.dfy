/** Spacing means nothing beyond where it is: two token lists with the same tokens, spaced in
    the same places, parse to the same tree. */
module Respacing {
  import opened Common
  import opened Strings
  import opened Ast
  import opened Lexer
  import opened Grammar

  // Between these the parser never asks for whitespace or for its absence.
  predicate FreeGap(before: TokenKind, after: TokenKind) {
    after in {RightParen, Comma, Colon, EndOfInput} || (before in {LeftParen, Comma} && after !in {AndToken, OrToken})
  }

  predicate SameToken(a: Token, b: Token) { a.kind == b.kind && a.lexeme == b.lexeme && a.value == b.value }

  /** The same tokens under the same limits, spaced and touching in the same places. */
  ghost predicate Alike(s: Source, t: Source) {
    && s.limits == t.limits && |s.tokens| == |t.tokens|
    && (forall k :: 0 <= k < |s.tokens| ==> SameToken(s.tokens[k], t.tokens[k]))
    && forall k: nat :: k + 1 < |s.tokens| && !FreeGap(Kind(s, k), Kind(s, k + 1)) ==>
         && (SpacedAfter(s, k) ==> SpacedAfter(t, k))
         && (Touching(s.tokens[k], s.tokens[k + 1]) ==> Touching(t.tokens[k], t.tokens[k + 1]))
  }

  ghost predicate SameValues(a: seq<Token>, b: seq<Token>) {
    |a| == |b| && forall k :: 0 <= k < |a| ==> a[k].value == b[k].value
  }

  lemma SamePath(sc: Scope, a: seq<Token>, b: seq<Token>)
    requires SameValues(a, b)
    ensures PathText(a) == PathText(b) && PathDepth(sc, a) == PathDepth(sc, b)
  {
    assert seq(|a|, i requires 0 <= i < |a| => a[i].value) == seq(|b|, i requires 0 <= i < |b| => b[i].value);
  }

  lemma SameAt(s: Source, t: Source, k: nat)
    requires Alike(s, t) && k < |s.tokens|
    ensures Kind(s, k) == Kind(t, k) && s.tokens[k].value == t.tokens[k].value
    ensures LiteralOf(s.tokens[k]) == LiteralOf(t.tokens[k])
  {
    assert SameToken(s.tokens[k], t.tokens[k]);
  }

  lemma SpacedAlike(s: Source, t: Source, k: nat)
    requires Alike(s, t) && k + 1 < |s.tokens| && !FreeGap(Kind(s, k), Kind(s, k + 1))
    ensures SpacedAfter(s, k) ==> SpacedAfter(t, k)
    ensures Touching(s.tokens[k], s.tokens[k + 1]) ==> Touching(t.tokens[k], t.tokens[k + 1])
  {
    hide RequiredSpacing;
  }

  // ---- paths ----

  ghost predicate SamePathEnd(a: Result<PathEnd>, b: Result<PathEnd>) {
    a.Ok? ==>
      b.Ok? && SameValues(a.value.segments, b.value.segments)
      && match a.value
         case FieldPath(_, next) => b.value.FieldPath? && b.value.next == next
         case QuantifierPath(_, operator) => b.value.QuantifierPath? && b.value.operator == operator
  }

  lemma {:induction false} PathAlike(s: Source, t: Source, cur: nat, sc: Scope, a: seq<Token>, b: seq<Token>)
    requires Alike(s, t) && 0 < cur < |s.tokens| && a != [] && SameValues(a, b)
    requires a[|a| - 1] == s.tokens[cur - 1] && b[|b| - 1] == t.tokens[cur - 1] && Kind(s, cur - 1) == Identifier
    ensures SamePathEnd(PathRest(s, cur, sc, a), PathRest(t, cur, sc, b))
    decreases |s.tokens| - cur
  {
    hide PathDepth, Alike, RequiredSpacing;
    SameLength(s, t);
    SameAt(s, t, cur);
    SamePath(sc, a, b);
    if PathRest(s, cur, sc, a).Ok? && Kind(s, cur) == Slash {
      SameAt(s, t, cur + 1);
      SpacedAlike(s, t, cur - 1);
      SpacedAlike(s, t, cur);
      if Kind(s, cur + 1) == Identifier {
        SameAt(s, t, cur + 2);
        var longer, longer' := a + [s.tokens[cur + 1]], b + [t.tokens[cur + 1]];
        SamePath(sc, longer, longer');
        PathAlike(s, t, cur + 2, sc, longer, longer');
      }
    }
  }

  lemma SameLength(s: Source, t: Source)
    requires Alike(s, t)
    ensures |s.tokens| == |t.tokens| && s.limits == t.limits
  {}

  // ---- comparisons ----

  lemma {:induction false} ListAlike(s: Source, t: Source, cur: nat, literals: seq<Literal>)
    requires Alike(s, t) && cur < |s.tokens| && ListItems(s, cur, literals).Ok?
    ensures cur < |t.tokens| && ListItems(t, cur, literals) == ListItems(s, cur, literals)
    decreases |s.tokens| - cur
  {
    hide LiteralOf, Alike;
    SameLength(s, t);
    SameAt(s, t, cur);
    SameAt(s, t, cur + 1);
    if Kind(s, cur + 1) == Comma {
      SameAt(s, t, cur + 2);
      ListAlike(s, t, cur + 2, literals + [LiteralOf(s.tokens[cur]).value]);
    }
  }

  lemma OperatorAlike(s: Source, t: Source, cur: nat)
    requires Alike(s, t) && cur < |s.tokens| && Operator(s, cur).Ok?
    ensures cur < |t.tokens| && Operator(t, cur) == Operator(s, cur)
  {
    hide RequiredSpacing, Alike;
    SameLength(s, t);
    SameAt(s, t, cur);
    if SimpleOperator(Kind(s, cur)).None? {
      SameAt(s, t, cur + 1);
      SpacedAlike(s, t, cur);
      if Kind(s, cur) == IsToken && Kind(s, cur + 1) == NotToken {
        SameAt(s, t, cur + 2);
        SpacedAlike(s, t, cur + 1);
      }
    }
  }

  lemma OperandAlike(s: Source, t: Source, next: nat, op: CompareOp, field: string)
    requires Alike(s, t) && 0 < next < |s.tokens| && Operand(s, next, op, field).Ok?
    requires Kind(s, next - 1) !in {LeftParen, Comma}
    ensures next < |t.tokens| && Operand(t, next, op, field) == Operand(s, next, op, field)
  {
    hide RequiredSpacing, Alike, ListItems;
    SameLength(s, t);
    SameAt(s, t, next);
    if op != IsNull && op != IsNotNull {
      SpacedAlike(s, t, next - 1);
      if op == In || op == NotIn {
        SameAt(s, t, next + 1);
        ListAlike(s, t, next + 1, []);
      }
    }
  }

  // ---- trees ----

  ghost predicate Same(a: Outcome, b: Outcome) {
    a.Ok? ==>
      && b.Ok? && b.value.0.expr == a.value.0.expr && b.value.1 == a.value.1
      && b.value.0.nodes == a.value.0.nodes && b.value.0.depth == a.value.0.depth
  }

  lemma LastOfOperator(s: Source, cur: nat)
    requires cur < |s.tokens| && Operator(s, cur).Ok?
    ensures Kind(s, Operator(s, cur).value.1 - 1) !in {LeftParen, Comma}
      && Kind(s, cur) !in {RightParen, Comma, Colon, EndOfInput}
  {
    hide RequiredSpacing;
  }

  lemma ComparisonAlike(s: Source, t: Source, cur: nat, first: nat, a: seq<Token>, b: seq<Token>)
    requires Alike(s, t) && first < cur < |s.tokens| && SameValues(a, b) && Kind(s, cur - 1) == Identifier
    ensures cur < |t.tokens| && Same(ComparisonAt(s, cur, first, a), ComparisonAt(t, cur, first, b))
  {
    hide Alike, Operator, Operand, RequiredSpacing, PathText;
    SameLength(s, t);
    SamePath(TOP, a, b);
    if ComparisonAt(s, cur, first, a).Ok? {
      LastOfOperator(s, cur);
      SpacedAlike(s, t, cur - 1);
      OperatorAlike(s, t, cur);
      var (op, next) := Operator(s, cur).value;
      OperandAlike(s, t, next, op, PathText(a));
    }
  }

  lemma {:induction false} ChainAlike(s: Source, t: Source, cur: nat, sc: Scope, op: LogicalOp)
    requires Alike(s, t) && cur < |s.tokens| && op != OtherLogical
    ensures cur < |t.tokens| && Same(Chain(s, cur, sc, op), Chain(t, cur, sc, op))
    decreases |s.tokens| - cur, if op == Or then 5 else 3
  {
    hide Alike, Level, ChainRest;
    SameLength(s, t);
    LevelAlike(s, t, cur, sc, op);
    var left := Level(s, cur, sc, op);
    if left.Ok? {
      RestAlike(s, t, cur, left.value.1, sc, op, left.value.0, Level(t, cur, sc, op).value.0);
    }
  }

  lemma {:induction false} LevelAlike(s: Source, t: Source, cur: nat, sc: Scope, op: LogicalOp)
    requires Alike(s, t) && cur < |s.tokens| && op != OtherLogical
    ensures cur < |t.tokens| && Same(Level(s, cur, sc, op), Level(t, cur, sc, op))
    decreases |s.tokens| - cur, if op == Or then 4 else 2
  {
    hide Alike, Chain, Primary;
    SameLength(s, t);
    if op == Or {
      ChainAlike(s, t, cur, sc, And);
    } else {
      PrimaryAlike(s, t, cur, sc);
    }
  }

  lemma FirstOfPrimary(s: Source, cur: nat, sc: Scope)
    requires cur < |s.tokens|
    ensures Primary(s, cur, sc).Ok? ==> Kind(s, cur) in {NotToken, LeftParen, Identifier}
  {
    hide Chain, RequiredSpacing, PathRest;
    assert PathPredicate(s, cur, sc).Ok? ==> Kind(s, cur) == Identifier;
  }

  lemma FirstOfTree(s: Source, cur: nat, sc: Scope, op: LogicalOp)
    requires cur < |s.tokens| && op != OtherLogical
    ensures Primary(s, cur, sc).Ok? ==> Kind(s, cur) in {NotToken, LeftParen, Identifier}
    ensures Level(s, cur, sc, op).Ok? || Chain(s, cur, sc, op).Ok? ==> Kind(s, cur) in {NotToken, LeftParen, Identifier}
  {
    hide ChainRest, Primary;
    FirstOfPrimary(s, cur, sc);
    var inner := Chain(s, cur, sc, And);
    assert Level(s, cur, sc, And) == Primary(s, cur, sc) && Level(s, cur, sc, Or) == inner;
    assert inner.Ok? ==> Level(s, cur, sc, And).Ok?;
  }

  lemma {:induction false} RestAlike(s: Source, t: Source, first: nat, cur: nat, sc: Scope, op: LogicalOp,
                                     left: Parsed, left': Parsed)
    requires Alike(s, t) && first < cur < |s.tokens| && op != OtherLogical
    requires Delivers(s, first, Ok((left, cur))) && Delivers(t, first, Ok((left', cur)))
    requires left'.expr == left.expr && left'.nodes == left.nodes && left'.depth == left.depth
    ensures cur < |t.tokens| && Same(ChainRest(s, first, cur, sc, op, left), ChainRest(t, first, cur, sc, op, left'))
    decreases |s.tokens| - cur, 6
  {
    hide Alike, Level, RequiredSpacing, ExpressionFits;
    SameLength(s, t);
    SameAt(s, t, cur);
    if Kind(s, cur) == BinaryKind(op) && ChainRest(s, first, cur, sc, op, left).Ok? {
      FirstOfTree(s, cur + 1, sc, op);
      SpacedAlike(s, t, cur - 1);
      SpacedAlike(s, t, cur);
      LevelAlike(s, t, cur + 1, sc, op);
      var right, right' := Level(s, cur + 1, sc, op).value, Level(t, cur + 1, sc, op).value;
      RestAlike(s, t, first, right.1, sc, op, Joined(s, op, left, right.0).value, Joined(t, op, left', right'.0).value);
    }
  }

  lemma {:induction false} PrimaryAlike(s: Source, t: Source, cur: nat, sc: Scope)
    requires Alike(s, t) && cur < |s.tokens|
    ensures cur < |t.tokens| && Same(Primary(s, cur, sc), Primary(t, cur, sc))
    decreases |s.tokens| - cur, 1
  {
    hide Alike, Chain, PathPredicate, RequiredSpacing, ExpressionFits;
    SameLength(s, t);
    SameAt(s, t, cur);
    if Primary(s, cur, sc).Ok? {
      if Kind(s, cur) == NotToken {
        FirstOfTree(s, cur + 1, sc, Or);
        SpacedAlike(s, t, cur);
        PrimaryAlike(s, t, cur + 1, sc);
      } else if Kind(s, cur) == LeftParen {
        ChainAlike(s, t, cur + 1, sc.(paren := sc.paren + 1), Or);
        SameAt(s, t, Chain(s, cur + 1, sc.(paren := sc.paren + 1), Or).value.1);
      } else {
        PredicateAlike(s, t, cur, sc);
      }
    }
  }

  lemma {:induction false} PredicateAlike(s: Source, t: Source, cur: nat, sc: Scope)
    requires Alike(s, t) && cur < |s.tokens|
    ensures cur < |t.tokens| && Same(PathPredicate(s, cur, sc), PathPredicate(t, cur, sc))
    decreases |s.tokens| - cur, 0
  {
    hide Alike, PathRest, ComparisonAt, QuantifierAt;
    SameLength(s, t);
    SameAt(s, t, cur);
    if PathPredicate(s, cur, sc).Ok? {
      SameAt(s, t, cur + 1);
      PathAlike(s, t, cur + 1, sc, [s.tokens[cur]], [t.tokens[cur]]);
      var path, path' :=
        PathRest(s, cur + 1, sc, [s.tokens[cur]]).value, PathRest(t, cur + 1, sc, [t.tokens[cur]]).value;
      if path.FieldPath? {
        FieldEnds(s, cur + 1, sc, [s.tokens[cur]]);
        ComparisonAlike(s, t, path.next, cur, path.segments, path'.segments);
      } else {
        QuantifierAlike(s, t, cur, path.operator, sc, path.segments, path'.segments);
      }
    }
  }

  lemma {:induction false} FieldEnds(s: Source, cur: nat, sc: Scope, segments: seq<Token>)
    requires 0 < cur < |s.tokens| && segments != [] && Kind(s, cur - 1) == Identifier
    requires PathRest(s, cur, sc, segments).Ok? && PathRest(s, cur, sc, segments).value.FieldPath?
    ensures cur <= PathRest(s, cur, sc, segments).value.next
      && Kind(s, PathRest(s, cur, sc, segments).value.next - 1) == Identifier
    decreases |s.tokens| - cur
  {
    hide PathDepth;
    if Kind(s, cur) == Slash {
      FieldEnds(s, cur + 2, sc, segments + [s.tokens[cur + 1]]);
    }
  }

  lemma {:induction false} QuantifierAlike(s: Source, t: Source, first: nat, operator: nat, sc: Scope,
                                           a: seq<Token>, b: seq<Token>)
    requires Alike(s, t) && first < operator && operator + 1 < |s.tokens| && SameValues(a, b)
    requires Kind(s, operator) in {AnyToken, AllToken}
    ensures operator + 1 < |t.tokens|
    ensures Same(QuantifierAt(s, first, operator, sc, a), QuantifierAt(t, first, operator, sc, b))
    decreases |s.tokens| - operator, 7
  {
    hide Alike, Chain, RequiredSpacing, PathText, PathDepth, ExpressionFits, QuantifierHead;
    SameLength(s, t);
    if QuantifierAt(s, first, operator, sc, a).Ok? {
      var variable := QuantifierHead(s, operator, sc, a).value;
      HeadAlike(s, t, operator, sc, a, b);
      SamePath(sc, a, b);
      SameAt(s, t, operator);
      ChainAlike(s, t, operator + 4, BodyScope(sc, variable), Or);
      SameAt(s, t, Chain(s, operator + 4, BodyScope(sc, variable), Or).value.1);
    }
  }

  lemma HeadAlike(s: Source, t: Source, operator: nat, sc: Scope, a: seq<Token>, b: seq<Token>)
    requires Alike(s, t) && operator + 1 < |s.tokens| && SameValues(a, b) && Kind(s, operator) in {AnyToken, AllToken}
    requires QuantifierHead(s, operator, sc, a).Ok?
    requires Chain(s, operator + 4, BodyScope(sc, QuantifierHead(s, operator, sc, a).value), Or).Ok?
    ensures operator + 1 < |t.tokens| && QuantifierHead(t, operator, sc, b) == QuantifierHead(s, operator, sc, a)
  {
    hide Alike, RequiredSpacing, PathDepth, Chain;
    SameLength(s, t);
    SamePath(sc, a, b);
    FirstOfTree(s, operator + 4, BodyScope(sc, QuantifierHead(s, operator, sc, a).value), Or);
    SameAt(s, t, operator + 1);
    SameAt(s, t, operator + 2);
    SameAt(s, t, operator + 3);
    SpacedAlike(s, t, operator);
    SpacedAlike(s, t, operator + 3);
  }

  /** What parses to a tree parses to it under any other spacing of the same places. */
  lemma ParseAlike(s: Source, t: Source)
    requires Alike(s, t) && ParseTokens(s).Ok?
    ensures ParseTokens(t) == ParseTokens(s)
  {
    hide Alike, Chain;
    ChainAlike(s, t, 0, TOP, Or);
    SameLength(s, t);
    SameAt(s, t, Chain(s, 0, TOP, Or).value.1);
  }
}
