/** The spacing an accepted filter must have: whitespace between words, none around slashes
    or before the parenthesis of a quantifier. */
module Spacing {
  import opened Common
  import opened Strings
  import opened Ast
  import opened Lexer
  import opened Grammar
  import opened Rendering
  import opened Respacing

  predicate MustTouch(before: TokenKind, after: TokenKind) {
    before == Slash || after == Slash || (before in {AnyToken, AllToken} && after == LeftParen)
  }

  // No operand stands between these.
  predicate Odd(before: TokenKind, after: TokenKind) { before in {LeftParen, Comma} && after in {AndToken, OrToken} }

  ghost predicate SpacedRight(s: Source, k: nat)
    requires k + 1 < |s.tokens|
  {
    && (Gap(Kind(s, k), Kind(s, k + 1)) ==> SpacedAfter(s, k))
    && (MustTouch(Kind(s, k), Kind(s, k + 1)) ==> Touching(s.tokens[k], s.tokens[k + 1]))
    && !Odd(Kind(s, k), Kind(s, k + 1))
  }

  // The tokens from one to another are spaced right among themselves.
  ghost predicate AllSpacedRight(s: Source, from: nat, to: nat)
    requires to <= |s.tokens|
  {
    forall k: nat :: from <= k && k + 1 < to ==> SpacedRight(s, k)
  }

  ghost predicate Tidy(s: Source, cur: nat, r: Outcome)
    requires Delivers(s, cur, r)
  {
    r.Ok? ==> AllSpacedRight(s, cur, r.value.1) && Kind(s, r.value.1 - 1) !in {Slash, LeftParen, Comma}
  }

  lemma Joins(s: Source, a: nat, b: nat, c: nat)
    requires a < b < c <= |s.tokens| && AllSpacedRight(s, a, b) && AllSpacedRight(s, b, c) && SpacedRight(s, b - 1)
    ensures AllSpacedRight(s, a, c)
  {
    hide SpacedRight;
  }

  // Overlapping runs are one.
  lemma Extends(s: Source, a: nat, b: nat, c: nat)
    requires a < b <= c <= |s.tokens| && AllSpacedRight(s, a, b) && AllSpacedRight(s, b - 1, c)
    ensures AllSpacedRight(s, a, c)
  {
    hide SpacedRight;
  }

  lemma OneToken(s: Source, k: nat)
    requires k < |s.tokens|
    ensures AllSpacedRight(s, k, k + 1)
  {}

  // ---- paths and comparisons ----

  lemma SlashPair(s: Source, k: nat)
    requires k + 1 < |s.tokens| && Touching(s.tokens[k], s.tokens[k + 1])
      && (Kind(s, k) == Slash || Kind(s, k + 1) == Slash)
    ensures SpacedRight(s, k)
  {
    hide RequiredSpacing;
  }

  lemma {:induction false} PathTidy(s: Source, cur: nat, sc: Scope, segments: seq<Token>)
    requires 0 < cur < |s.tokens| && segments != [] && segments[|segments| - 1] == s.tokens[cur - 1]
    requires Kind(s, cur - 1) == Identifier && PathRest(s, cur, sc, segments).Ok?
    ensures var path := PathRest(s, cur, sc, segments).value;
      var end := if path.FieldPath? then path.next else path.operator + 1;
      cur <= end < |s.tokens| && AllSpacedRight(s, cur - 1, end) && (path.FieldPath? ==> Kind(s, end - 1) == Identifier)
    decreases |s.tokens| - cur
  {
    hide PathRest, SpacedRight, AllSpacedRight, Touching;
    OneToken(s, cur - 1);
    PathParts(s, cur, sc, segments);
    if Kind(s, cur) == Slash {
      OneToken(s, cur);
      OneToken(s, cur + 1);
      SlashPair(s, cur - 1);
      SlashPair(s, cur);
      Joins(s, cur - 1, cur, cur + 1);
      Joins(s, cur - 1, cur + 1, cur + 2);
      if Kind(s, cur + 1) == Identifier {
        var longer := segments + [s.tokens[cur + 1]];
        PathTidy(s, cur + 2, sc, longer);
        var path := PathRest(s, cur + 2, sc, longer).value;
        Extends(s, cur - 1, cur + 2, if path.FieldPath? then path.next else path.operator + 1);
      }
    }
  }

  lemma PathParts(s: Source, cur: nat, sc: Scope, segments: seq<Token>)
    requires 0 < cur < |s.tokens| && segments != [] && segments[|segments| - 1] == s.tokens[cur - 1]
    requires PathRest(s, cur, sc, segments).Ok?
    ensures Kind(s, cur) != Slash ==> PathRest(s, cur, sc, segments).value == FieldPath(segments, cur)
    ensures Kind(s, cur) == Slash ==>
      && cur + 2 < |s.tokens| && Touching(s.tokens[cur - 1], s.tokens[cur])
      && Touching(s.tokens[cur], s.tokens[cur + 1])
      && if Kind(s, cur + 1) == Identifier
         then PathRest(s, cur, sc, segments) == PathRest(s, cur + 2, sc, segments + [s.tokens[cur + 1]])
         else PathRest(s, cur, sc, segments).value == QuantifierPath(segments, cur + 1)
  {
    hide PathDepth, Touching;
  }

  lemma {:induction false} ListTidy(s: Source, cur: nat, literals: seq<Literal>)
    requires 0 < cur < |s.tokens| && Kind(s, cur - 1) in {LeftParen, Comma} && ListItems(s, cur, literals).Ok?
    ensures AllSpacedRight(s, cur - 1, ListItems(s, cur, literals).value.1)
    ensures Kind(s, ListItems(s, cur, literals).value.1 - 1) == RightParen
    decreases |s.tokens| - cur
  {
    hide RequiredSpacing;
    LiteralKinds(s.tokens[cur]);
    if Kind(s, cur + 1) == Comma {
      ListTidy(s, cur + 2, literals + [LiteralOf(s.tokens[cur]).value]);
    }
  }

  lemma LiteralKinds(t: Token)
    requires LiteralOf(t).Some?
    ensures t.kind in {StringToken, NumberToken, TrueToken, FalseToken}
  {}

  lemma OperatorTidy(s: Source, cur: nat)
    requires cur < |s.tokens| && Operator(s, cur).Ok?
    ensures var (op, next) := Operator(s, cur).value;
      && AllSpacedRight(s, cur, next)
      && Kind(s, next - 1) !in {EndOfInput, LeftParen, RightParen, Comma, Slash, Colon, AnyToken, AllToken}
      && Kind(s, cur) !in {EndOfInput, LeftParen, RightParen, Comma, Slash, Colon}
  {
    hide RequiredSpacing;
  }

  lemma OperandTidy(s: Source, next: nat, op: CompareOp, field: string)
    requires 0 < next < |s.tokens| && Operand(s, next, op, field).Ok?
    requires Kind(s, next - 1) !in {EndOfInput, LeftParen, Comma, Slash, AnyToken, AllToken}
    ensures AllSpacedRight(s, next - 1, Operand(s, next, op, field).value.1)
    ensures Kind(s, Operand(s, next, op, field).value.1 - 1) !in {Slash, LeftParen, Comma}
  {
    hide RequiredSpacing, ListItems;
    if op == In || op == NotIn {
      ListTidy(s, next + 1, []);
    } else if op != IsNull && op != IsNotNull {
      LiteralKinds(s.tokens[next]);
    }
  }

  lemma ComparisonTidy(s: Source, cur: nat, first: nat, segments: seq<Token>)
    requires first < cur < |s.tokens| && Kind(s, cur - 1) == Identifier && AllSpacedRight(s, first, cur)
    ensures Tidy(s, first, ComparisonAt(s, cur, first, segments))
  {
    hide Operator, Operand, PathText, RequiredSpacing, AllSpacedRight;
    if ComparisonAt(s, cur, first, segments).Ok? {
      var (op, next) := Operator(s, cur).value;
      OperatorTidy(s, cur);
      OperandTidy(s, next, op, PathText(segments));
      var end := Operand(s, next, op, PathText(segments)).value.1;
      Joins(s, first, cur, next);
      Extends(s, first, next, end);
    }
  }

  // ---- trees ----

  // Whitespace between words, and nothing asked for inside parentheses.
  lemma SpacedPair(s: Source, k: nat)
    requires k + 1 < |s.tokens| && SpacedAfter(s, k) && Kind(s, k) !in {Slash, LeftParen, Comma}
      && Kind(s, k + 1) != Slash
    requires Kind(s, k) in {AnyToken, AllToken} ==> Kind(s, k + 1) != LeftParen
    ensures SpacedRight(s, k)
  {
    hide RequiredSpacing, Gap;
  }

  lemma FreePair(s: Source, k: nat)
    requires k + 1 < |s.tokens| && Kind(s, k) != Slash && Kind(s, k + 1) != Slash
    requires Kind(s, k) == LeftParen || Kind(s, k + 1) == RightParen
    requires Kind(s, k + 1) !in {AndToken, OrToken}
    ensures SpacedRight(s, k)
  {
    hide RequiredSpacing;
  }

  lemma {:induction false} ChainTidy(s: Source, cur: nat, sc: Scope, op: LogicalOp)
    requires cur < |s.tokens| && op != OtherLogical
    ensures Tidy(s, cur, Chain(s, cur, sc, op))
    decreases |s.tokens| - cur, if op == Or then 5 else 3
  {
    hide Level, ChainRest, AllSpacedRight;
    LevelTidy(s, cur, sc, op);
    var left := Level(s, cur, sc, op);
    if left.Ok? {
      RestTidy(s, cur, left.value.1, sc, op, left.value.0);
    }
  }

  lemma {:induction false} LevelTidy(s: Source, cur: nat, sc: Scope, op: LogicalOp)
    requires cur < |s.tokens| && op != OtherLogical
    ensures Tidy(s, cur, Level(s, cur, sc, op))
    decreases |s.tokens| - cur, if op == Or then 4 else 2
  {
    hide Chain, Primary, AllSpacedRight;
    if op == Or {
      ChainTidy(s, cur, sc, And);
    } else {
      PrimaryTidy(s, cur, sc);
    }
  }

  // One more operand: the word between is spaced on both sides.
  lemma RestStep(s: Source, first: nat, cur: nat, sc: Scope, op: LogicalOp, left: Parsed)
    returns (right: (Parsed, nat), joined: Parsed)
    requires first < cur < |s.tokens| && op != OtherLogical && Delivers(s, first, Ok((left, cur)))
    requires Kind(s, cur) == BinaryKind(op) && ChainRest(s, first, cur, sc, op, left).Ok?
    ensures Level(s, cur + 1, sc, op) == Ok(right) && cur + 1 < right.1 < |s.tokens|
    ensures SpacedAfter(s, cur - 1) && SpacedAfter(s, cur) && Delivers(s, first, Ok((joined, right.1)))
    ensures ChainRest(s, first, cur, sc, op, left) == ChainRest(s, first, right.1, sc, op, joined)
  {
    hide Level, RequiredSpacing, ExpressionFits;
    right := Level(s, cur + 1, sc, op).value;
    joined := Joined(s, op, left, right.0).value;
  }

  lemma {:induction false} RestTidy(s: Source, first: nat, cur: nat, sc: Scope, op: LogicalOp, left: Parsed)
    requires first < cur < |s.tokens| && op != OtherLogical && Delivers(s, first, Ok((left, cur)))
    requires AllSpacedRight(s, first, cur) && Kind(s, cur - 1) !in {Slash, LeftParen, Comma}
    ensures Tidy(s, first, ChainRest(s, first, cur, sc, op, left))
    decreases |s.tokens| - cur, 6
  {
    hide Level, ExpressionFits, AllSpacedRight, SpacedRight, SpacedAfter, ChainRest, Delivers;
    if Kind(s, cur) != BinaryKind(op) {
      RestEnds(s, first, cur, sc, op, left);
    } else if ChainRest(s, first, cur, sc, op, left).Ok? {
      var right, joined := RestStep(s, first, cur, sc, op, left);
      LevelTidy(s, cur + 1, sc, op);
      FirstOfTree(s, cur + 1, sc, op);
      OneToken(s, cur);
      SpacedPair(s, cur - 1);
      SpacedPair(s, cur);
      Joins(s, first, cur, cur + 1);
      Joins(s, first, cur + 1, right.1);
      RestTidy(s, first, right.1, sc, op, joined);
    }
  }

  lemma RestEnds(s: Source, first: nat, cur: nat, sc: Scope, op: LogicalOp, left: Parsed)
    requires first < cur < |s.tokens| && op != OtherLogical && Delivers(s, first, Ok((left, cur)))
    requires Kind(s, cur) != BinaryKind(op)
    ensures ChainRest(s, first, cur, sc, op, left) == Ok((left, cur))
  {}

  lemma NotParts(s: Source, cur: nat, sc: Scope)
    requires cur < |s.tokens| && Kind(s, cur) == NotToken && Primary(s, cur, sc).Ok?
    ensures SpacedAfter(s, cur) && cur + 1 < |s.tokens| && Primary(s, cur + 1, sc).Ok?
    ensures Primary(s, cur, sc).value.1 == Primary(s, cur + 1, sc).value.1
  {
    hide RequiredSpacing, ExpressionFits;
  }

  lemma ParenParts(s: Source, cur: nat, sc: Scope) returns (inner: Scope, next: nat)
    requires cur < |s.tokens| && Kind(s, cur) == LeftParen && Primary(s, cur, sc).Ok?
    ensures cur + 1 < next && next + 1 < |s.tokens| && Kind(s, next) == RightParen
    ensures Chain(s, cur + 1, inner, Or).Ok? && Chain(s, cur + 1, inner, Or).value.1 == next
    ensures Primary(s, cur, sc).value.1 == next + 1
  {
    hide Chain;
    inner := sc.(paren := sc.paren + 1);
    next := Chain(s, cur + 1, inner, Or).value.1;
  }

  lemma PathStarts(s: Source, cur: nat, sc: Scope)
    requires cur < |s.tokens| && Kind(s, cur) != NotToken && Kind(s, cur) != LeftParen
    ensures Primary(s, cur, sc) == PathPredicate(s, cur, sc)
  {}

  lemma {:induction false} PrimaryTidy(s: Source, cur: nat, sc: Scope)
    requires cur < |s.tokens|
    ensures Tidy(s, cur, Primary(s, cur, sc))
    decreases |s.tokens| - cur, 1
  {
    hide Chain, Primary, PathPredicate, SpacedAfter, AllSpacedRight, SpacedRight, Delivers;
    OneToken(s, cur);
    if Kind(s, cur) != NotToken && Kind(s, cur) != LeftParen {
      PathStarts(s, cur, sc);
      PredicateTidy(s, cur, sc);
    } else if Primary(s, cur, sc).Ok? {
      if Kind(s, cur) == NotToken {
        NotParts(s, cur, sc);
        FirstOfTree(s, cur + 1, sc, Or);
        PrimaryTidy(s, cur + 1, sc);
        SpacedPair(s, cur);
        Delivered(s, cur + 1, Primary(s, cur + 1, sc));
        Joins(s, cur, cur + 1, Primary(s, cur + 1, sc).value.1);
      } else {
        var inner, next := ParenParts(s, cur, sc);
        FirstOfTree(s, cur + 1, inner, Or);
        ChainTidy(s, cur + 1, inner, Or);
        FreePair(s, cur);
        Joins(s, cur, cur + 1, next);
        OneToken(s, next);
        FreePair(s, next - 1);
        Joins(s, cur, next, next + 1);
      }
    }
  }

  lemma Delivered(s: Source, cur: nat, r: Outcome)
    requires Delivers(s, cur, r) && r.Ok?
    ensures cur < r.value.1 < |s.tokens|
  {}

  lemma {:induction false} PredicateTidy(s: Source, cur: nat, sc: Scope)
    requires cur < |s.tokens|
    ensures Tidy(s, cur, PathPredicate(s, cur, sc))
    decreases |s.tokens| - cur, 0
  {
    hide PathRest, ComparisonAt, QuantifierAt, AllSpacedRight;
    if PathPredicate(s, cur, sc).Ok? {
      PathTidy(s, cur + 1, sc, [s.tokens[cur]]);
      var path := PathRest(s, cur + 1, sc, [s.tokens[cur]]).value;
      if path.FieldPath? {
        ComparisonTidy(s, path.next, cur, path.segments);
      } else {
        QuantifierTidy(s, cur, path.operator, sc, path.segments);
      }
    }
  }

  lemma QuantifierParts(s: Source, first: nat, operator: nat, sc: Scope, segments: seq<Token>)
    returns (body: Scope, next: nat)
    requires first < operator && operator + 1 < |s.tokens| && QuantifierAt(s, first, operator, sc, segments).Ok?
    ensures QuantifierHead(s, operator, sc, segments).Ok? && operator + 4 < next && next + 1 < |s.tokens|
    ensures Chain(s, operator + 4, body, Or).Ok? && Chain(s, operator + 4, body, Or).value.1 == next
    ensures Kind(s, next) == RightParen && QuantifierAt(s, first, operator, sc, segments).value.1 == next + 1
  {
    hide Chain, QuantifierHead, PathText, ExpressionFits;
    body := BodyScope(sc, QuantifierHead(s, operator, sc, segments).value);
    next := Chain(s, operator + 4, body, Or).value.1;
  }

  lemma {:induction false} QuantifierTidy(s: Source, first: nat, operator: nat, sc: Scope, segments: seq<Token>)
    requires first < operator && operator + 1 < |s.tokens| && Kind(s, operator) in {AnyToken, AllToken}
    requires AllSpacedRight(s, first, operator + 1)
    ensures Tidy(s, first, QuantifierAt(s, first, operator, sc, segments))
    decreases |s.tokens| - operator, 7
  {
    hide Chain, QuantifierHead, AllSpacedRight, SpacedRight, QuantifierAt, Delivers;
    if QuantifierAt(s, first, operator, sc, segments).Ok? {
      var body, next := QuantifierParts(s, first, operator, sc, segments);
      FirstOfTree(s, operator + 4, body, Or);
      HeadTidy(s, operator, sc, segments);
      ChainTidy(s, operator + 4, body, Or);
      Extends(s, first, operator + 1, operator + 5);
      Extends(s, first, operator + 5, next);
      OneToken(s, next);
      FreePair(s, next - 1);
      Joins(s, first, next, next + 1);
    }
  }

  lemma HeadTidy(s: Source, operator: nat, sc: Scope, segments: seq<Token>)
    requires operator + 1 < |s.tokens| && Kind(s, operator) in {AnyToken, AllToken}
    requires QuantifierHead(s, operator, sc, segments).Ok? && Kind(s, operator + 4) in {NotToken, LeftParen, Identifier}
    ensures AllSpacedRight(s, operator, operator + 5)
  {
    hide RequiredSpacing, PathDepth;
  }

  /** An accepted filter is spaced right throughout. */
  lemma AcceptedIsSpaced(s: Source)
    requires ParseTokens(s).Ok? && forall k :: 0 <= k < |s.tokens| - 1 ==> s.tokens[k].kind != EndOfInput
    ensures AllSpacedRight(s, 0, |s.tokens| - 1)
  {
    hide Chain, AllSpacedRight;
    ChainTidy(s, 0, TOP, Or);
  }
}
