/** Parsing undoes printing, whatever the choice of redundant parentheses. */
module RoundTrip {
  import opened Common
  import opened Strings
  import opened Ast
  import opened Lexer
  import opened Numerals
  import opened Grammar
  import opened ParseLimits
  import opened ParsedTree
  import opened Rendering
  import opened Printer

  // The parse r is the tree e, up to the token next.
  ghost predicate Got(r: Outcome, e: Expr, next: nat) {
    r.Ok? && r.value.0.expr == e && r.value.1 == next
  }

  lemma SpacedWhereGap(s: Source, k: nat)
    requires Spaced(s) && k + 2 < |s.tokens|
    ensures Gap(Kind(s, k), Kind(s, k + 1)) ==> SpacedAfter(s, k)
    ensures !Gap(Kind(s, k), Kind(s, k + 1)) ==> Touching(s.tokens[k], s.tokens[k + 1])
  {}

  lemma ReadsKind(s: Source, cur: nat, pieces: seq<Piece>, k: nat)
    requires Reads(s, cur, pieces) && k < |pieces|
    ensures Kind(s, cur + k) == pieces[k].kind
  {
    ReadsToken(s, cur, pieces, k);
  }

  // ---- comparisons ----

  const LITERAL_KINDS := {StringToken, NumberToken, TrueToken, FalseToken}

  lemma LiteralIsRead(t: Token, l: Literal)
    requires PrintableLiteral(l) && PieceOf(t) == LiteralPiece(l)
    ensures LiteralOf(t) == Some(l) && t.kind in LITERAL_KINDS
  {}

  lemma LastOfPath(path: string)
    ensures PathPieces(path)[|PathPieces(path)| - 1].kind == Identifier
  {
    LastOfTail(Split('/', path)[1..]);
  }

  lemma {:induction false} LastOfTail(names: seq<string>)
    ensures names != [] ==> PathTail(names) != [] && PathTail(names)[|PathTail(names)| - 1].kind == Identifier
  {
    if |names| > 1 {
      LastOfTail(names[1..]);
    } else if |names| == 1 {
      assert PathTail(names[1..]) == [];
    }
  }

  lemma OneWordIsRead(s: Source, cur: nat, op: CompareOp)
    requires op !in {NotIn, IsNull, IsNotNull, OtherCompare} && Reads(s, cur, OperatorPieces(op))
    ensures |OperatorPieces(op)| == 1 && Operator(s, cur) == Ok((op, cur + 1))
  {
    hide Reads, SpacedAfter;
    ReadsToken(s, cur, OperatorPieces(op), 0);
  }

  lemma OperatorKinds(op: CompareOp)
    ensures var pieces := OperatorPieces(op);
      && (op == NotIn ==> |pieces| == 2 && pieces[0].kind == NotToken && pieces[1].kind == InToken)
      && (op == IsNull ==> |pieces| == 2 && pieces[0].kind == IsToken && pieces[1].kind == NullToken)
      && (op == IsNotNull ==>
            |pieces| == 3 && pieces[0].kind == IsToken && pieces[1].kind == NotToken && pieces[2].kind == NullToken)
  {}

  lemma TwoWordsAreRead(s: Source, cur: nat, op: CompareOp)
    requires Spaced(s) && (op == NotIn || op == IsNull) && Reads(s, cur, OperatorPieces(op))
    ensures |OperatorPieces(op)| == 2 && Operator(s, cur) == Ok((op, cur + 2))
  {
    hide Reads, Spaced, SpacedAfter, OperatorPieces, PieceOf;
    OperatorKinds(op);
    var pieces := OperatorPieces(op);
    ReadsBounds(s, cur, pieces);
    ReadsKind(s, cur, pieces, 0);
    ReadsKind(s, cur, pieces, 1);
    SpacedWhereGap(s, cur);
  }

  lemma ThreeWordsAreRead(s: Source, cur: nat)
    requires Spaced(s) && Reads(s, cur, OperatorPieces(IsNotNull))
    ensures |OperatorPieces(IsNotNull)| == 3 && Operator(s, cur) == Ok((IsNotNull, cur + 3))
  {
    hide Reads, Spaced, SpacedAfter, OperatorPieces, PieceOf;
    OperatorKinds(IsNotNull);
    var pieces := OperatorPieces(IsNotNull);
    ReadsBounds(s, cur, pieces);
    ReadsKind(s, cur, pieces, 0);
    ReadsKind(s, cur, pieces, 1);
    ReadsKind(s, cur, pieces, 2);
    SpacedWhereGap(s, cur);
    SpacedWhereGap(s, cur + 1);
  }

  lemma OperatorIsRead(s: Source, cur: nat, op: CompareOp)
    requires Spaced(s) && op != OtherCompare && Reads(s, cur, OperatorPieces(op))
    ensures Operator(s, cur) == Ok((op, cur + |OperatorPieces(op)|))
  {
    hide Operator, OperatorPieces, Reads, Spaced;
    if op == NotIn || op == IsNull {
      TwoWordsAreRead(s, cur, op);
    } else if op == IsNotNull {
      ThreeWordsAreRead(s, cur);
    } else {
      OneWordIsRead(s, cur, op);
    }
  }

  lemma ReadsBounds(s: Source, cur: nat, pieces: seq<Piece>)
    requires Reads(s, cur, pieces)
    ensures cur + |pieces| < |s.tokens|
  {}

  lemma ListPiecesStep(literals: seq<Literal>)
    requires literals != []
    ensures ListPieces(literals) ==
      if |literals| == 1 then [LiteralPiece(literals[0]), CLOSE]
      else [LiteralPiece(literals[0]), Word(Comma, ",")] + ListPieces(literals[1..])
  {}

  lemma ListStep(s: Source, cur: nat, before: seq<Literal>, literal: Literal)
    requires cur + 2 < |s.tokens| && LiteralOf(s.tokens[cur]) == Some(literal) && |before| < s.limits.maxInValues
    ensures Kind(s, cur + 1) == RightParen ==> ListItems(s, cur, before) == Ok((before + [literal], cur + 2))
    ensures Kind(s, cur + 1) == Comma && Kind(s, cur + 2) != RightParen ==>
      ListItems(s, cur, before) == ListItems(s, cur + 2, before + [literal])
  {
    hide LiteralOf;
  }

  // The first item of a list and what stands behind it.
  lemma ListHead(s: Source, cur: nat, literals: seq<Literal>)
    requires literals != [] && Reads(s, cur, ListPieces(literals)) && PrintableLiteral(literals[0])
    requires |literals| > 1 ==> PrintableLiteral(literals[1])
    ensures cur + 2 < |s.tokens| && LiteralOf(s.tokens[cur]) == Some(literals[0])
    ensures if |literals| == 1 then Kind(s, cur + 1) == RightParen && |ListPieces(literals)| == 2
            else
              && Kind(s, cur + 1) == Comma && Kind(s, cur + 2) != RightParen
              && Reads(s, cur + 2, ListPieces(literals[1..]))
              && |ListPieces(literals)| == 2 + |ListPieces(literals[1..])|
  {
    hide Reads, LiteralOf, LiteralPiece, PrintableLiteral, ListPieces;
    ListPiecesStep(literals);
    var pieces := ListPieces(literals);
    ReadsBounds(s, cur, pieces);
    ReadsToken(s, cur, pieces, 0);
    ReadsKind(s, cur, pieces, 1);
    LiteralIsRead(s.tokens[cur], literals[0]);
    if |literals| > 1 {
      var rest := literals[1..];
      FirstOfList(rest);
      ReadsSplit(s, cur, [LiteralPiece(literals[0]), Word(Comma, ",")], ListPieces(rest));
      ReadsToken(s, cur + 2, ListPieces(rest), 0);
      LiteralIsRead(s.tokens[cur + 2], rest[0]);
    }
  }

  lemma {:induction false} ListIsRead(s: Source, cur: nat, before: seq<Literal>, literals: seq<Literal>)
    requires literals != [] && |before| + |literals| <= s.limits.maxInValues
    requires forall k :: 0 <= k < |literals| ==> PrintableLiteral(literals[k])
    requires Reads(s, cur, ListPieces(literals))
    ensures ListItems(s, cur, before) == Ok((before + literals, cur + |ListPieces(literals)|))
    decreases |literals|
  {
    hide Reads, LiteralOf, PrintableLiteral, ListPieces, ListItems;
    ListHead(s, cur, literals);
    ListStep(s, cur, before, literals[0]);
    if |literals| == 1 {
      assert before + literals == before + [literals[0]];
    } else {
      ListIsRead(s, cur + 2, before + [literals[0]], literals[1..]);
      assert (before + [literals[0]]) + literals[1..] == before + literals;
    }
  }

  lemma FirstOfList(literals: seq<Literal>)
    ensures ListPieces(literals) != [] && (literals != [] ==> ListPieces(literals)[0] == LiteralPiece(literals[0]))
  {}

  lemma LastWord(op: CompareOp)
    ensures op != OtherCompare ==> OperatorPieces(op) != []
    ensures op != OtherCompare ==>
      var words := OperatorPieces(op);
      var last := words[|words| - 1].kind;
      && ((op == In || op == NotIn) ==> Gap(last, LeftParen))
      && forall kind :: kind in LITERAL_KINDS ==> Gap(last, kind)
  {}

  lemma OperandIsList(s: Source, next: nat, op: CompareOp, field: string)
    requires 0 < next < |s.tokens| && (op == In || op == NotIn)
    ensures SpacedAfter(s, next - 1) && Kind(s, next) == LeftParen ==>
      next + 1 < |s.tokens| &&
      var items := ListItems(s, next + 1, []);
      (Kind(s, next + 1) != RightParen && items.Ok? ==>
        Operand(s, next, op, field) == Ok((Comparison(field, op, NO_LITERAL, items.value.0), items.value.1)))
  {
    hide SpacedAfter, ListItems;
  }

  lemma ListOperandIsRead(s: Source, next: nat, field: string, op: CompareOp, literals: seq<Literal>)
    requires Spaced(s) && 0 < next && (op == In || op == NotIn) && literals != []
    requires (forall k :: 0 <= k < |literals| ==> PrintableLiteral(literals[k])) && |literals| <= s.limits.maxInValues
    requires Reads(s, next, [OPEN] + ListPieces(literals)) && Gap(Kind(s, next - 1), LeftParen)
    ensures Operand(s, next, op, field) ==
      Ok((Comparison(field, op, NO_LITERAL, literals), next + |[OPEN] + ListPieces(literals)|))
  {
    hide Reads, Spaced, SpacedAfter, LiteralOf, LiteralPiece, PrintableLiteral, ListItems, Gap, ListPieces, Operand;
    var pieces := [OPEN] + ListPieces(literals);
    ReadsBounds(s, next, pieces);
    OperandIsList(s, next, op, field);
    ReadsToken(s, next, pieces, 0);
    SpacedWhereGap(s, next - 1);
    ReadsSplit(s, next, [OPEN], ListPieces(literals));
    FirstOfList(literals);
    ReadsToken(s, next + 1, ListPieces(literals), 0);
    LiteralIsRead(s.tokens[next + 1], literals[0]);
    ListIsRead(s, next + 1, [], literals);
    assert [] + literals == literals;
  }

  lemma LiteralOperandIsRead(s: Source, next: nat, field: string, op: CompareOp, literal: Literal)
    requires Spaced(s) && 0 < next && op !in {In, NotIn, IsNull, IsNotNull, OtherCompare} && PrintableLiteral(literal)
    requires Reads(s, next, [LiteralPiece(literal)])
    requires forall kind :: kind in LITERAL_KINDS ==> Gap(Kind(s, next - 1), kind)
    ensures Operand(s, next, op, field) == Ok((Comparison(field, op, literal, []), next + 1))
  {
    hide Reads, Spaced, SpacedAfter, LiteralOf, LiteralPiece, PrintableLiteral, Gap;
    var pieces := [LiteralPiece(literal)];
    ReadsBounds(s, next, pieces);
    ReadsToken(s, next, pieces, 0);
    LiteralIsRead(s.tokens[next], literal);
    SpacedWhereGap(s, next - 1);
  }

  lemma OperandIsRead(s: Source, next: nat, field: string, op: CompareOp, literal: Literal, literals: seq<Literal>)
    requires Spaced(s) && 0 < next && PrintableOperand(op, literal, literals)
    requires Reads(s, next, OperandPieces(op, literal, literals))
    requires OperatorPieces(op) != [] && Kind(s, next - 1) == OperatorPieces(op)[|OperatorPieces(op)| - 1].kind
    requires op == In || op == NotIn ==> |literals| <= s.limits.maxInValues
    ensures Operand(s, next, op, field) ==
      Ok((Comparison(field, op, literal, literals), next + |OperandPieces(op, literal, literals)|))
  {
    hide Reads, Spaced, SpacedAfter, LiteralPiece, PrintableLiteral, ListItems, OperatorPieces, Gap, ListPieces;
    LastWord(op);
    if op == In || op == NotIn {
      ListOperandIsRead(s, next, field, op, literals);
    } else if op != IsNull && op != IsNotNull {
      LiteralOperandIsRead(s, next, field, op, literal);
    }
  }

  lemma ComparisonTokens(s: Source, cur: nat, path: seq<Piece>, words: seq<Piece>, operand: seq<Piece>)
    requires Reads(s, cur, path + (words + operand)) && path != [] && words != []
    ensures var at := cur + |path|; var next := at + |words|;
      && Reads(s, cur, path) && Reads(s, at, words) && Reads(s, next, operand) && next + |operand| < |s.tokens|
      && Kind(s, at - 1) == path[|path| - 1].kind && Kind(s, at) == words[0].kind
      && Kind(s, next - 1) == words[|words| - 1].kind
  {
    hide Reads;
    var at := cur + |path|;
    ReadsSplit(s, cur, path, words + operand);
    ReadsSplit(s, at, words, operand);
    ReadsBounds(s, at + |words|, operand);
    ReadsKind(s, cur, path, |path| - 1);
    ReadsKind(s, at, words, 0);
    ReadsKind(s, at, words, |words| - 1);
  }

  lemma ComparisonIsRead(s: Source, cur: nat, sc: Scope, e: Expr, style: Style)
    requires Spaced(s) && e.Comparison? && Printable(e) && Fits(e, s.limits, sc) && Reads(s, cur, Bare(e, style))
    ensures Got(PathPredicate(s, cur, sc), e, cur + |Bare(e, style)|)
  {
    hide Reads, Spaced, RequiredSpacing, PathRest, Operator, Operand, PathPieces, OperandPieces, PrintableOperand,
      PathDepth, PathText, ScopedDepth, PathPredicate, OperatorPieces, Gap, Bare, IsWordPath, ComparisonAt, Got,
      SpacedAfter;
    var path, words := PathPieces(e.field), OperatorPieces(e.op);
    var operand := OperandPieces(e.op, e.literal, e.literals);
    BareComparison(e, style);
    assert Bare(e, style) == path + (words + operand);
    KnownOperator(e.op, e.literal, e.literals);
    PathFirst(e.field);
    ComparisonTokens(s, cur, path, words, operand);
    var at := cur + |path|;
    WholePathIsRead(s, cur, sc, e.field);
    LastOfPath(e.field);
    SpacedWhereGap(s, at - 1);
    OperatorIsRead(s, at, e.op);
    OperandIsRead(s, at + |words|, e.field, e.op, e.literal, e.literals);
    PathPredicateSteps(s, cur, sc);
    assert SpacedAfter(s, at - 1) && ExpressionFits(s.limits, 1, 1);
    ComparisonStep(s, cur, at, PathRest(s, cur + 1, sc, [s.tokens[cur]]).value.segments, e, at + |words|,
                   at + |words| + |operand|);
  }

  lemma ComparisonStep(s: Source, cur: nat, at: nat, segments: seq<Token>, e: Expr, next: nat, end: nat)
    requires cur < at && 0 < next < |s.tokens| && at < |s.tokens| && e.Comparison? && SpacedAfter(s, at - 1)
    requires Operator(s, at) == Ok((e.op, next)) && Operand(s, next, e.op, PathText(segments)) == Ok((e, end))
    requires ExpressionFits(s.limits, 1, 1)
    ensures Got(ComparisonAt(s, at, cur, segments), e, end)
  {
    hide Operator, Operand, PathText, RequiredSpacing;
  }

  lemma KnownOperator(op: CompareOp, literal: Literal, literals: seq<Literal>)
    requires PrintableOperand(op, literal, literals)
    ensures op != OtherCompare && OperatorPieces(op) != []
    ensures Gap(Identifier, OperatorPieces(op)[0].kind) && OperatorPieces(op)[0].kind != Slash
  {}

  lemma PathPredicateSteps(s: Source, cur: nat, sc: Scope)
    requires cur < |s.tokens| && Kind(s, cur) == Identifier
    ensures var path := PathRest(s, cur + 1, sc, [s.tokens[cur]]);
      path.Ok? ==>
        if path.value.FieldPath?
        then PathPredicate(s, cur, sc) == ComparisonAt(s, path.value.next, cur, path.value.segments)
        else PathPredicate(s, cur, sc) == QuantifierAt(s, cur, path.value.operator, sc, path.value.segments)
  {}

  // ---- trees ----

  // A tree with or without parentheses around it.
  function Shown(e: Expr, parens: bool, style: Style): seq<Piece> {
    if parens then [OPEN] + Bare(e, style) + [CLOSE] else Bare(e, style)
  }

  function ShownNesting(e: Expr, parens: bool, style: Style): nat { BareNesting(e, style) + if parens then 1 else 0 }

  // What is shown can stand where the given strength is wanted.
  predicate Stands(e: Expr, parens: bool, strength: nat) {
    parens || !e.Logical? || Strength(e.logical) >= strength
  }

  const FIRST_KINDS := {Identifier, NotToken, LeftParen}
  const LAST_KINDS := {RightParen, StringToken, NumberToken, TrueToken, FalseToken, NullToken}

  lemma {:induction false} EdgeKinds(e: Expr, parens: bool, style: Style)
    requires Printable(e)
    ensures var shown := Shown(e, parens, style);
      shown != [] && shown[0].kind in FIRST_KINDS && shown[|shown| - 1].kind in LAST_KINDS
    decreases e
  {
    hide Bare, PathPieces, PrintableOperand, Parenthesised;
    if !parens {
      if e.Comparison? {
        BareComparison(e, style);
        ComparisonEdges(e.field, e.op, e.literal, e.literals);
      } else if e.Logical? {
        BareLogical(e, style);
        EdgeKinds(e.left, Parenthesised(e.left, Strength(e.logical), style), style);
        EdgeKinds(e.right, Parenthesised(e.right, Strength(e.logical) + 1, style), style);
      } else if e.Not? {
        BareNot(e, style);
        EdgeKinds(e.operand, Parenthesised(e.operand, 2, style), style);
      } else {
        BareQuantifier(e, style);
        PathFirst(e.relationship);
      }
    }
  }

  lemma PrintIsShown(e: Expr, strength: nat, style: Style)
    ensures Print(e, strength, style) == Shown(e, Parenthesised(e, strength, style), style)
    ensures Nesting(e, strength, style) == ShownNesting(e, Parenthesised(e, strength, style), style)
  {
    hide Bare, BareNesting, Parenthesised;
  }

  lemma BareComparison(e: Expr, style: Style)
    requires e.Comparison?
    ensures Bare(e, style) == PathPieces(e.field) + OperatorPieces(e.op) + OperandPieces(e.op, e.literal, e.literals)
  {}

  lemma BareLogical(e: Expr, style: Style)
    requires e.Logical?
    ensures var op := e.logical;
      var l, r := Parenthesised(e.left, Strength(op), style), Parenthesised(e.right, Strength(op) + 1, style);
      var word := if op == Or then Word(OrToken, "or") else Word(AndToken, "and");
      && Bare(e, style) == Shown(e.left, l, style) + ([word] + Shown(e.right, r, style))
      && ShownNesting(e.left, l, style) <= BareNesting(e, style)
      && ShownNesting(e.right, r, style) <= BareNesting(e, style)
  {
    hide Print, Nesting, Parenthesised, Shown, ShownNesting, Strength;
    PrintIsShown(e.left, Strength(e.logical), style);
    PrintIsShown(e.right, Strength(e.logical) + 1, style);
  }

  lemma BareNot(e: Expr, style: Style)
    requires e.Not?
    ensures var parens := Parenthesised(e.operand, 2, style);
      && Bare(e, style) == [Word(NotToken, "not")] + Shown(e.operand, parens, style)
      && ShownNesting(e.operand, parens, style) == BareNesting(e, style)
  {
    hide Print, Nesting, Parenthesised;
    PrintIsShown(e.operand, 2, style);
  }

  lemma BareQuantifier(e: Expr, style: Style)
    requires e.Quantifier?
    ensures var parens := Parenthesised(e.body, 0, style);
      && Bare(e, style) == PathPieces(e.relationship) +
           (HeadPieces(e.quantifier, e.variable) + (Shown(e.body, parens, style) + [CLOSE]))
      && 1 + ShownNesting(e.body, parens, style) == BareNesting(e, style)
  {
    hide Print, Nesting, Parenthesised, PathPieces, HeadPieces;
    PrintIsShown(e.body, 0, style);
  }

  lemma ParenthesisedStands(e: Expr, strength: nat, style: Style)
    ensures Stands(e, Parenthesised(e, strength, style), strength)
  {}

  lemma PathFirst(path: string)
    ensures PathPieces(path) != [] && PathPieces(path)[0].kind == Identifier
  {}

  lemma ComparisonEdges(field: string, op: CompareOp, literal: Literal, literals: seq<Literal>)
    requires PrintableOperand(op, literal, literals)
    ensures var pieces := PathPieces(field) + OperatorPieces(op) + OperandPieces(op, literal, literals);
      pieces[0].kind == Identifier && pieces[|pieces| - 1].kind in LAST_KINDS
  {
    hide PathTail;
    PathFirst(field);
    if op == In || op == NotIn {
      ListEnds(literals);
    }
  }

  lemma {:induction false} ListEnds(literals: seq<Literal>)
    ensures ListPieces(literals) != [] && ListPieces(literals)[|ListPieces(literals)| - 1] == CLOSE
  {
    if |literals| > 1 {
      ListEnds(literals[1..]);
    }
  }

  // What holds wherever a tree is about to be read.
  ghost predicate Ready(s: Source, cur: nat, sc: Scope, e: Expr, parens: bool, style: Style) {
    && Spaced(s) && Printable(e) && Fits(e, s.limits, sc)
    && Reads(s, cur, Shown(e, parens, style))
    && sc.paren + ShownNesting(e, parens, style) <= MAX_PARENTHESIS_NESTING
  }

  function End(cur: nat, e: Expr, parens: bool, style: Style): nat { cur + |Shown(e, parens, style)| }

  function Whole(s: Source, cur: nat, e: Expr, next: nat): Parsed
    requires cur < next <= |s.tokens|
  {
    Parsed(e, s.tokens[cur].start, s.tokens[next - 1].end, Size(e), Height(e))
  }

  lemma GotWhole(s: Source, cur: nat, r: Outcome, e: Expr, next: nat)
    requires cur < |s.tokens| && Delivers(s, cur, r) && Got(r, e, next)
    ensures cur < next < |s.tokens| && r == Ok((Whole(s, cur, e, next), next))
  {}

  // After the tree the parser has it as its left operand.
  ghost predicate AsLeft(s: Source, cur: nat, sc: Scope, op: LogicalOp, e: Expr, next: nat) {
    && op != OtherLogical && cur < next < |s.tokens|
    && Delivers(s, cur, Ok((Whole(s, cur, e, next), next)))
    && Chain(s, cur, sc, op) == ChainRest(s, cur, next, sc, op, Whole(s, cur, e, next))
  }

  // No tighter operator follows.
  predicate NothingTighter(s: Source, next: nat, op: LogicalOp) {
    next < |s.tokens| && (op == Or ==> Kind(s, next) != AndToken)
  }

  lemma {:induction false} SpineIsRead(s: Source, cur: nat, sc: Scope, op: LogicalOp, e: Expr, parens: bool,
                                       style: Style)
    requires op != OtherLogical && Ready(s, cur, sc, e, parens, style) && Stands(e, parens, Strength(op))
    requires NothingTighter(s, End(cur, e, parens, style), op)
    ensures AsLeft(s, cur, sc, op, e, End(cur, e, parens, style))
    decreases e, if parens then 1 else 0, if op == Or then 6 else 2
  {
    hide Chain, Level, ChainRest, Fits, Delivers, Reads, Spaced, Printable, Bare, Got, Shown;
    if !parens && e.Logical? && e.logical == op {
      LogicalIsRead(s, cur, sc, op, e, style);
    } else {
      KnownLogical(e);
      LevelIsRead(s, cur, sc, op, e, parens, style);
      ReadyBounds(s, cur, sc, e, parens, style);
      LevelAsLeft(s, cur, sc, op, e, End(cur, e, parens, style));
    }
  }

  lemma PrintableParts(e: Expr)
    requires Printable(e)
    ensures e.Logical? ==> e.logical != OtherLogical && Printable(e.left) && Printable(e.right)
    ensures e.Quantifier? ==> e.quantifier != OtherQuantifier && Printable(e.body)
  {}

  lemma KnownLogical(e: Expr)
    requires Printable(e)
    ensures e.Logical? ==> e.logical != OtherLogical
  {}

  lemma ReadyBounds(s: Source, cur: nat, sc: Scope, e: Expr, parens: bool, style: Style)
    requires Ready(s, cur, sc, e, parens, style)
    ensures cur < End(cur, e, parens, style) < |s.tokens|
  {}

  lemma LevelAsLeft(s: Source, cur: nat, sc: Scope, op: LogicalOp, e: Expr, next: nat)
    requires op != OtherLogical && cur < |s.tokens| && Got(Level(s, cur, sc, op), e, next)
    ensures AsLeft(s, cur, sc, op, e, next)
  {
    hide Level, ChainRest;
    GotWhole(s, cur, Level(s, cur, sc, op), e, next);
  }

  // left op right, bare: the spine of the left operand, then one more step.
  lemma {:induction false} LogicalIsRead(s: Source, cur: nat, sc: Scope, op: LogicalOp, e: Expr, style: Style)
    requires op != OtherLogical && Ready(s, cur, sc, e, false, style) && e.Logical? && e.logical == op
    requires NothingTighter(s, End(cur, e, false, style), op)
    ensures AsLeft(s, cur, sc, op, e, End(cur, e, false, style))
    decreases e, 0, if op == Or then 5 else 1
  {
    hide Chain, Level, ChainRest, Fits, Reads, Spaced, Printable, Got, Delivers, SpacedAfter, Shown;
    var l, r := Parenthesised(e.left, Strength(op), style), Parenthesised(e.right, Strength(op) + 1, style);
    var mid := End(cur, e.left, l, style);
    OperandsReady(s, cur, sc, e, style);
    SpineIsRead(s, cur, sc, op, e.left, l, style);
    LevelIsRead(s, mid + 1, sc, op, e.right, r, style);
    LeftStep(s, cur, mid, sc, op, e, End(cur, e, false, style));
  }

  lemma FitsCounts(e: Expr, limits: Limits, sc: Scope)
    requires Fits(e, limits, sc)
    ensures ExpressionFits(limits, Size(e), Height(e))
  {}

  lemma LeftStep(s: Source, cur: nat, mid: nat, sc: Scope, op: LogicalOp, e: Expr, next: nat)
    requires op != OtherLogical && e.Logical? && e.logical == op && Fits(e, s.limits, sc)
    requires AsLeft(s, cur, sc, op, e.left, mid) && mid + 1 < |s.tokens| && Kind(s, mid) == BinaryKind(op)
    requires SpacedAfter(s, mid - 1) && SpacedAfter(s, mid) && Got(Level(s, mid + 1, sc, op), e.right, next)
    ensures AsLeft(s, cur, sc, op, e, next)
  {
    hide Chain, Level, SpacedAfter, Fits;
    GotWhole(s, mid + 1, Level(s, mid + 1, sc, op), e.right, next);
    JoinFits(op, e.left, e.right, s.limits, sc);
    var left, right := Whole(s, cur, e.left, mid), Whole(s, mid + 1, e.right, next);
    assert Joined(s, op, left, right) == Ok(Whole(s, cur, e, next)) by {
      hide ChainRest;
      FitsCounts(e, s.limits, sc);
    }
  }

  // Two shown trees with a binary operator between them.
  lemma BinaryTokens(s: Source, cur: nat, op: LogicalOp, left: seq<Piece>, right: seq<Piece>)
    requires var word := if op == Or then Word(OrToken, "or") else Word(AndToken, "and");
      Spaced(s) && Reads(s, cur, left + ([word] + right))
    requires left != [] && left[|left| - 1].kind in LAST_KINDS && right != [] && right[0].kind in FIRST_KINDS
    ensures var mid := cur + |left|;
      && Reads(s, cur, left) && Reads(s, mid + 1, right)
      && 0 < mid && mid + 1 < |s.tokens| && Kind(s, mid) == BinaryKind(op)
      && SpacedAfter(s, mid - 1) && SpacedAfter(s, mid)
  {
    hide Reads, Spaced, SpacedAfter;
    var word := if op == Or then Word(OrToken, "or") else Word(AndToken, "and");
    ReadsSplit(s, cur, left, [word] + right);
    var mid := cur + |left|;
    ReadsSplit(s, mid, [word], right);
    ReadsBounds(s, mid + 1, right);
    ReadsKind(s, cur, left, |left| - 1);
    ReadsKind(s, mid, [word], 0);
    ReadsKind(s, mid + 1, right, 0);
    SpacedWhereGap(s, mid - 1);
    SpacedWhereGap(s, mid);
  }

  lemma OperandsReady(s: Source, cur: nat, sc: Scope, e: Expr, style: Style)
    requires Ready(s, cur, sc, e, false, style) && e.Logical?
    ensures var op := e.logical;
      var l, r := Parenthesised(e.left, Strength(op), style), Parenthesised(e.right, Strength(op) + 1, style);
      var mid := End(cur, e.left, l, style);
      && op != OtherLogical
      && Ready(s, cur, sc, e.left, l, style) && Stands(e.left, l, Strength(op))
      && Ready(s, mid + 1, sc, e.right, r, style) && Stands(e.right, r, Strength(op) + 1)
      && 0 < mid && mid + 1 < |s.tokens| && Kind(s, mid) == BinaryKind(op)
      && SpacedAfter(s, mid - 1) && SpacedAfter(s, mid)
      && End(mid + 1, e.right, r, style) == End(cur, e, false, style)
  {
    hide Reads, Spaced, SpacedAfter, Fits, Bare, BareNesting, Parenthesised, Stands, Printable, Strength, BinaryKind;
    PrintableParts(e);
    var op := e.logical;
    var l, r := Parenthesised(e.left, Strength(op), style), Parenthesised(e.right, Strength(op) + 1, style);
    BareLogical(e, style);
    ParenthesisedStands(e.left, Strength(op), style);
    ParenthesisedStands(e.right, Strength(op) + 1, style);
    EdgeKinds(e.left, l, style);
    EdgeKinds(e.right, r, style);
    JoinFits(op, e.left, e.right, s.limits, sc);
    BinaryTokens(s, cur, op, Shown(e.left, l, style), Shown(e.right, r, style));
  }

  lemma {:induction false} LevelIsRead(s: Source, cur: nat, sc: Scope, op: LogicalOp, e: Expr, parens: bool,
                                       style: Style)
    requires op != OtherLogical && Ready(s, cur, sc, e, parens, style) && Stands(e, parens, Strength(op) + 1)
    requires NothingTighter(s, End(cur, e, parens, style), op)
    ensures cur < |s.tokens| && Got(Level(s, cur, sc, op), e, End(cur, e, parens, style))
    decreases e, if parens then 1 else 0, if op == Or then 4 else 0, 2
  {
    hide Chain, Primary, Fits, Delivers, Reads, Spaced, Printable, Shown, Bare;
    ReadyBounds(s, cur, sc, e, parens, style);
    if op == Or {
      ChainIsRead(s, cur, sc, And, e, parens, style);
    } else {
      PrimaryIsRead(s, cur, sc, e, parens, style);
    }
  }

  /** A tree shown where the operator op may join it is parsed as that tree. */
  lemma {:induction false} ChainIsRead(s: Source, cur: nat, sc: Scope, op: LogicalOp, e: Expr, parens: bool,
                                       style: Style)
    requires op != OtherLogical && Ready(s, cur, sc, e, parens, style) && Stands(e, parens, Strength(op))
    requires var next := End(cur, e, parens, style); NothingTighter(s, next, op) && Kind(s, next) != BinaryKind(op)
    ensures cur < |s.tokens| && Got(Chain(s, cur, sc, op), e, End(cur, e, parens, style))
    decreases e, if parens then 1 else 0, if op == Or then 7 else 3
  {
    hide Chain, Level, Fits, Delivers, Reads, Spaced, Printable, Shown, Bare;
    SpineIsRead(s, cur, sc, op, e, parens, style);
  }

  lemma {:induction false} PrimaryIsRead(s: Source, cur: nat, sc: Scope, e: Expr, parens: bool, style: Style)
    requires Ready(s, cur, sc, e, parens, style) && Stands(e, parens, 2)
    ensures cur < |s.tokens| && Got(Primary(s, cur, sc), e, End(cur, e, parens, style))
    decreases e, if parens then 1 else 0, 0, 1
  {
    hide Chain, PathPredicate, Fits, Delivers, Reads, Spaced, Printable, Bare, SpacedAfter;
    ReadyBounds(s, cur, sc, e, parens, style);
    if parens {
      InsideReady(s, cur, sc, e, style);
      var inner := sc.(paren := sc.paren + 1);
      ChainIsRead(s, cur + 1, inner, Or, e, false, style);
    } else if e.Not? {
      NotReady(s, cur, sc, e, style);
      PrimaryIsRead(s, cur + 1, sc, e.operand, Parenthesised(e.operand, 2, style), style);
      NotStep(s, cur, sc, e, End(cur, e, false, style));
    } else if e.Comparison? {
      ComparisonIsRead(s, cur, sc, e, style);
      StartsPath(s, cur, sc, e, style);
    } else {
      QuantifierIsRead(s, cur, sc, e, style);
      StartsPath(s, cur, sc, e, style);
    }
  }

  lemma StartsPath(s: Source, cur: nat, sc: Scope, e: Expr, style: Style)
    requires Ready(s, cur, sc, e, false, style) && (e.Comparison? || e.Quantifier?)
    ensures Kind(s, cur) == Identifier
  {
    hide Reads, Spaced, Fits, Printable;
    var path := if e.Comparison? then e.field else e.relationship;
    PathFirst(path);
    ReadsToken(s, cur, Bare(e, style), 0);
    assert Bare(e, style)[0] == PathPieces(path)[0];
  }

  lemma FitsInside(e: Expr, limits: Limits, sc: Scope)
    ensures Fits(e, limits, sc.(paren := sc.paren + 1)) == Fits(e, limits, sc)
  {}

  lemma InsideTokens(s: Source, cur: nat, bare: seq<Piece>)
    requires Reads(s, cur, [OPEN] + (bare + [CLOSE]))
    ensures Kind(s, cur) == LeftParen && Reads(s, cur + 1, bare)
    ensures var next := cur + 1 + |bare|; next + 1 < |s.tokens| && Kind(s, next) == RightParen
  {
    hide Reads;
    ReadsSplit(s, cur, [OPEN], bare + [CLOSE]);
    ReadsSplit(s, cur + 1, bare, [CLOSE]);
    ReadsToken(s, cur, [OPEN], 0);
    ReadsBounds(s, cur + 1 + |bare|, [CLOSE]);
    ReadsToken(s, cur + 1 + |bare|, [CLOSE], 0);
  }

  lemma ShownInside(e: Expr, style: Style)
    ensures Shown(e, false, style) == Bare(e, style)
    ensures Shown(e, true, style) == [OPEN] + (Bare(e, style) + [CLOSE])
  {
    hide Bare;
  }

  lemma InsideReady(s: Source, cur: nat, sc: Scope, e: Expr, style: Style)
    requires Ready(s, cur, sc, e, true, style)
    ensures Kind(s, cur) == LeftParen && sc.paren + 1 <= MAX_PARENTHESIS_NESTING
    ensures Ready(s, cur + 1, sc.(paren := sc.paren + 1), e, false, style)
    ensures var next := End(cur + 1, e, false, style);
      next + 1 == End(cur, e, true, style) && next + 1 < |s.tokens| && Kind(s, next) == RightParen
  {
    hide Reads, Spaced, Printable, Shown, Bare, BareNesting, Fits;
    FitsInside(e, s.limits, sc);
    ShownInside(e, style);
    InsideTokens(s, cur, Bare(e, style));
  }

  lemma NotFits(e: Expr, limits: Limits, sc: Scope)
    requires e.Not? && Fits(e, limits, sc)
    ensures Fits(e.operand, limits, sc)
  {}

  lemma NotReady(s: Source, cur: nat, sc: Scope, e: Expr, style: Style)
    requires Ready(s, cur, sc, e, false, style) && e.Not?
    ensures var parens := Parenthesised(e.operand, 2, style);
      && Kind(s, cur) == NotToken && cur + 1 < |s.tokens| && SpacedAfter(s, cur)
      && Ready(s, cur + 1, sc, e.operand, parens, style) && Stands(e.operand, parens, 2)
      && End(cur + 1, e.operand, parens, style) == End(cur, e, false, style)
  {
    hide Reads, Spaced, SpacedAfter, Bare, BareNesting, Parenthesised, Stands, Fits;
    NotFits(e, s.limits, sc);
    var parens := Parenthesised(e.operand, 2, style);
    var operand := Shown(e.operand, parens, style);
    EdgeKinds(e.operand, parens, style);
    BareNot(e, style);
    ParenthesisedStands(e.operand, 2, style);
    ReadsSplit(s, cur, [Word(NotToken, "not")], operand);
    ReadsToken(s, cur, [Word(NotToken, "not")], 0);
    ReadsBounds(s, cur + 1, operand);
    ReadsToken(s, cur + 1, operand, 0);
    SpacedWhereGap(s, cur);
  }

  lemma NotStep(s: Source, cur: nat, sc: Scope, e: Expr, next: nat)
    requires cur + 1 < |s.tokens| && e.Not? && Fits(e, s.limits, sc) && Kind(s, cur) == NotToken && SpacedAfter(s, cur)
    requires Got(Primary(s, cur + 1, sc), e.operand, next)
    ensures Got(Primary(s, cur, sc), e, next)
  {
    hide Chain, PathPredicate, SpacedAfter;
    GotWhole(s, cur + 1, Primary(s, cur + 1, sc), e.operand, next);
  }

  lemma {:induction false} QuantifierIsRead(s: Source, cur: nat, sc: Scope, e: Expr, style: Style)
    requires Ready(s, cur, sc, e, false, style) && e.Quantifier?
    ensures Got(PathPredicate(s, cur, sc), e, End(cur, e, false, style))
    decreases e, 0, 0, 0
  {
    hide Chain, PathPredicate, Fits, Delivers, Reads, Spaced, Printable, Bare, PathRest, PathDepth, ScopedDepth,
      PathText, QuantifierAt, Shown, PathPieces;
    var at := QuantifierReady(s, cur, sc, e, style);
    var parens := Parenthesised(e.body, 0, style);
    ChainIsRead(s, at + 5, BodyScope(sc, e.variable), Or, e.body, parens, style);
    WholePathIsRead(s, cur, sc, e.relationship);
    var segments := PathRest(s, cur + 1, sc, [s.tokens[cur]]).value.segments;
    QuantifierStep(s, cur, at + 1, sc, segments, e, End(at + 5, e.body, parens, style));
    PathPredicateSteps(s, cur, sc);
  }

  lemma QuantifierTokens(s: Source, cur: nat, path: seq<Piece>, head: seq<Piece>, body: seq<Piece>)
    requires Reads(s, cur, path + (head + (body + [CLOSE]))) && body != []
    ensures var at := cur + |path|; var next := at + |head| + |body|;
      && Reads(s, cur, path) && Reads(s, at, head) && Reads(s, at + |head|, body)
      && next + 1 < |s.tokens| && Kind(s, next) == RightParen && Kind(s, at + |head|) == body[0].kind
  {
    hide Reads;
    ReadsSplit(s, cur, path, head + (body + [CLOSE]));
    var at := cur + |path|;
    ReadsSplit(s, at, head, body + [CLOSE]);
    ReadsSplit(s, at + |head|, body, [CLOSE]);
    ReadsBounds(s, at + |head| + |body|, [CLOSE]);
    ReadsKind(s, at + |head| + |body|, [CLOSE], 0);
    ReadsKind(s, at + |head|, body, 0);
  }

  lemma QuantifierReady(s: Source, cur: nat, sc: Scope, e: Expr, style: Style) returns (at: nat)
    requires Ready(s, cur, sc, e, false, style) && e.Quantifier?
    ensures Reads(s, cur, PathPieces(e.relationship)) && at == cur + |PathPieces(e.relationship)| && cur < at
    ensures ScopedDepth(e.relationship, sc.variables) <= s.limits.maxPathDepth
    ensures at + 5 < |s.tokens| && Kind(s, at) == Slash && Kind(s, at + 1) in {AnyToken, AllToken}
    ensures e.quantifier == (if Kind(s, at + 1) == AllToken then All else Any)
    ensures forall segments :: PathDepth(sc, segments) <= s.limits.maxPathDepth ==>
      QuantifierHead(s, at + 1, sc, segments) == Ok(e.variable)
    ensures var parens := Parenthesised(e.body, 0, style); var next := End(at + 5, e.body, parens, style);
      && Ready(s, at + 5, BodyScope(sc, e.variable), e.body, parens, style)
      && next < |s.tokens| && Kind(s, next) == RightParen && next + 1 == End(cur, e, false, style)
  {
    hide Reads, Spaced, RequiredSpacing, PathPieces, PathDepth, ScopedDepth, Fits, Bare, BareNesting,
      Parenthesised, HeadPieces, QuantifierHead, Printable;
    PrintableParts(e);
    BareQuantifier(e, style);
    assert |HeadPieces(e.quantifier, e.variable)| == 5 by { HeadLength(e.quantifier, e.variable); }
    var parens := Parenthesised(e.body, 0, style);
    var path, head, body :=
      PathPieces(e.relationship), HeadPieces(e.quantifier, e.variable), Shown(e.body, parens, style);
    PathFirst(e.relationship);
    EdgeKinds(e.body, parens, style);
    at := cur + |path|;
    QuantifierTokens(s, cur, path, head, body);
    ParseLimits.QuantifierFits(e.relationship, e.quantifier, e.variable, e.body, s.limits, sc);
    HeadIsRead(s, at, sc, e.quantifier, e.variable);
  }

  lemma HeadLength(quantifier: QuantifierOp, variable: string)
    ensures |HeadPieces(quantifier, variable)| == 5
  {}

  lemma HeadIsRead(s: Source, at: nat, sc: Scope, quantifier: QuantifierOp, variable: string)
    requires Spaced(s) && Reads(s, at, HeadPieces(quantifier, variable)) && quantifier != OtherQuantifier
    requires at + 6 < |s.tokens| && Kind(s, at + 5) in FIRST_KINDS
    requires sc.paren + 1 <= MAX_PARENTHESIS_NESTING && sc.quant + 1 <= s.limits.maxQuantifierDepth
    ensures Kind(s, at) == Slash && Kind(s, at + 1) in {AnyToken, AllToken}
    ensures quantifier == (if Kind(s, at + 1) == AllToken then All else Any)
    ensures forall segments :: PathDepth(sc, segments) <= s.limits.maxPathDepth ==>
      QuantifierHead(s, at + 1, sc, segments) == Ok(variable)
  {
    hide Reads, Spaced, SpacedAfter, PathDepth;
    var head := HeadPieces(quantifier, variable);
    ReadsKind(s, at, head, 0);
    ReadsKind(s, at, head, 1);
    ReadsKind(s, at, head, 2);
    ReadsToken(s, at, head, 3);
    ReadsKind(s, at, head, 4);
    SpacedWhereGap(s, at + 1);
    SpacedWhereGap(s, at + 4);
  }

  lemma QuantifierStep(s: Source, first: nat, operator: nat, sc: Scope, segments: seq<Token>, e: Expr, next: nat)
    requires first < operator && operator + 4 < |s.tokens| && e.Quantifier? && Fits(e, s.limits, sc)
    requires e.quantifier == (if Kind(s, operator) == AllToken then All else Any)
    requires PathText(segments) == e.relationship
      && PathDepth(sc, segments) == ScopedDepth(e.relationship, sc.variables)
    requires QuantifierHead(s, operator, sc, segments) == Ok(e.variable)
    requires Got(Chain(s, operator + 4, BodyScope(sc, e.variable), Or), e.body, next)
    requires next < |s.tokens| && Kind(s, next) == RightParen
    ensures Got(QuantifierAt(s, first, operator, sc, segments), e, next + 1)
  {
    hide Chain, PathDepth, ScopedDepth, PathText, QuantifierHead;
    GotWhole(s, operator + 4, Chain(s, operator + 4, BodyScope(sc, e.variable), Or), e.body, next);
  }

  // ---- from text to text ----

  lemma RenderSteps(before: TokenKind, pieces: seq<Piece>, pos: nat)
    ensures pieces == [] ==> TokensOf(before, pieces, pos) == [Token(EndOfInput, "", "", pos, pos)]
    ensures pieces != [] ==>
      var p, rest := pieces[0], pieces[1..];
      var t := TokenOf(p, pos + |Space(before, p.kind)|);
      && Render(before, pieces) == Space(before, p.kind) + p.lexeme + Render(p.kind, rest)
      && TokensOf(before, pieces, pos) == [t] + TokensOf(p.kind, rest, t.end)
  {}

  // The tokens of rendered text carry its pieces, spaced as rendered.
  lemma {:induction false} TokensOfRendered(before: TokenKind, pieces: seq<Piece>, front: string)
    ensures var input := front + Render(before, pieces); var tokens := TokensOf(before, pieces, |front|);
      && |tokens| == |pieces| + 1 && tokens[|pieces|].kind == EndOfInput
      && (forall k :: 0 <= k < |pieces| ==> PieceOf(tokens[k]) == pieces[k])
      && (forall k :: 0 <= k < |pieces| ==>
          Placed(input, if k == 0 then before else pieces[k - 1].kind, GapStart(|front|, tokens, k), tokens[k]))
    decreases |pieces|
  {
    hide Placed, Space, PieceOf, Render, TokensOf;
    RenderSteps(before, pieces, |front|);
    if pieces != [] {
      var input := front + Render(before, pieces);
      var p, rest := pieces[0], pieces[1..];
      var space := Space(before, p.kind);
      var consumed := front + space + p.lexeme;
      assert input == consumed + Render(p.kind, rest);
      TokensOfRendered(p.kind, rest, consumed);
      var tokens, later := TokensOf(before, pieces, |front|), TokensOf(p.kind, rest, |consumed|);
      PieceOfToken(p, tokens[0].start);
      FirstPlaced(before, p, front, Render(p.kind, rest));
      forall k | 0 < k < |pieces|
        ensures PieceOf(tokens[k]) == pieces[k]
        ensures Placed(input, pieces[k - 1].kind, GapStart(|front|, tokens, k), tokens[k])
      {
        assert tokens[k] == later[k - 1] && pieces[k] == rest[k - 1];
        assert GapStart(|front|, tokens, k) == GapStart(|consumed|, later, k - 1);
      }
    }
  }

  // The token starts where the renderer puts it after a token of kind before ending at pos.
  ghost predicate Placed(input: string, before: TokenKind, pos: nat, t: Token) {
    && t.start <= |input|
    && if Gap(before, t.kind) then t.start == pos + 1 && input[pos] == ' ' else t.start == pos
  }

  lemma PieceOfToken(p: Piece, start: nat)
    ensures PieceOf(TokenOf(p, start)) == p
  {}

  lemma FirstPlaced(before: TokenKind, p: Piece, front: string, tail: string)
    ensures Placed(front + Space(before, p.kind) + p.lexeme + tail, before, |front|,
                   TokenOf(p, |front| + |Space(before, p.kind)|))
  {}

  lemma RenderedIsReady(pieces: seq<Piece>, limits: Limits) returns (s: Source)
    ensures s == RawSource(Render(EndOfInput, pieces), TokensOf(EndOfInput, pieces, 0), limits)
    ensures Spaced(s) && Reads(s, 0, pieces) && |s.tokens| == |pieces| + 1 && Kind(s, |pieces|) == EndOfInput
  {
    hide TokensOf, Render, Placed;
    TokensOfRendered(EndOfInput, pieces, "");
    var input := Render(EndOfInput, pieces);
    assert "" + input == input;
    s := RawSource(input, TokensOf(EndOfInput, pieces, 0), limits);
    assert Reads(s, 0, pieces) by {
      assert PiecesOf(s)[0..|pieces|] == pieces;
    }
    forall k: nat | k + 2 < |s.tokens|
      ensures if Gap(Kind(s, k), Kind(s, k + 1)) then SpacedAfter(s, k) else Touching(s.tokens[k], s.tokens[k + 1])
    {
      hide PieceOf, Gap, Reads;
      assert PieceOf(s.tokens[k]) == pieces[k];
      assert Placed(input, pieces[k].kind, GapStart(0, s.tokens, k + 1), s.tokens[k + 1]);
      PlacedSpacing(s, k, pieces[k]);
    }
  }

  lemma PlacedSpacing(s: Source, k: nat, p: Piece)
    requires k + 1 < |s.tokens| && PieceOf(s.tokens[k]) == p
    requires Placed(s.input, p.kind, s.tokens[k].end, s.tokens[k + 1])
    ensures if Gap(Kind(s, k), Kind(s, k + 1)) then SpacedAfter(s, k) else Touching(s.tokens[k], s.tokens[k + 1])
  {
    hide Gap;
  }

  lemma LiteralIsLexable(l: Literal)
    requires PrintableLiteral(l)
    ensures Lexable(LiteralPiece(l))
  {
    hide Quotable, IsNumber;
  }

  lemma {:induction false} ListIsLexable(literals: seq<Literal>)
    requires forall k :: 0 <= k < |literals| ==> PrintableLiteral(literals[k])
    ensures AllLexable(ListPieces(literals))
  {
    hide LiteralPiece, PrintableLiteral;
    if literals != [] {
      LiteralIsLexable(literals[0]);
      ListIsLexable(literals[1..]);
    }
  }

  lemma NameIsLexable(name: string)
    requires IsWord(name)
    ensures Lexable(Word(Identifier, name))
  {
    WordKindIsKeyword(name);
  }

  lemma {:induction false} TailIsLexable(names: seq<string>)
    requires forall k :: 0 <= k < |names| ==> IsWord(names[k])
    ensures AllLexable(PathTail(names))
  {
    hide IsWord;
    if names != [] {
      NameIsLexable(names[0]);
      TailIsLexable(names[1..]);
    }
  }

  lemma PathIsLexable(path: string)
    requires IsWordPath(path)
    ensures AllLexable(PathPieces(path))
  {
    hide IsWord;
    NameIsLexable(Split('/', path)[0]);
    TailIsLexable(Split('/', path)[1..]);
  }

  lemma OperandIsLexable(op: CompareOp, literal: Literal, literals: seq<Literal>)
    requires PrintableOperand(op, literal, literals)
    ensures AllLexable(OperandPieces(op, literal, literals))
  {
    hide PrintableLiteral, LiteralPiece;
    if op == In || op == NotIn {
      ListIsLexable(literals);
    } else if op != IsNull && op != IsNotNull {
      LiteralIsLexable(literal);
    }
  }

  lemma KeywordIsLexable(kind: TokenKind, word: string)
    requires WordKind(word) == kind && IsWordKind(kind) && IsValidIdentifier(word)
    ensures Lexable(Word(kind, word))
  {}

  lemma EqualityWords()
    ensures Lexable(Word(EqToken, "eq")) && Lexable(Word(NeToken, "ne"))
  {
    hide Lexable;
    KeywordIsLexable(EqToken, "eq");
    KeywordIsLexable(NeToken, "ne");
  }

  lemma GreaterWords()
    ensures Lexable(Word(GtToken, "gt")) && Lexable(Word(GteToken, "gte"))
  {
    hide Lexable;
    KeywordIsLexable(GtToken, "gt");
    KeywordIsLexable(GteToken, "gte");
  }

  lemma LessWords()
    ensures Lexable(Word(LtToken, "lt")) && Lexable(Word(LteToken, "lte"))
  {
    hide Lexable;
    KeywordIsLexable(LtToken, "lt");
    KeywordIsLexable(LteToken, "lte");
  }

  lemma EndsWords()
    ensures Lexable(Word(StartsWithToken, "startswith")) && Lexable(Word(EndsWithToken, "endswith"))
  {
    hide Lexable;
    KeywordIsLexable(StartsWithToken, "startswith");
    KeywordIsLexable(EndsWithToken, "endswith");
  }

  lemma InWords()
    ensures Lexable(Word(ContainsToken, "contains")) && Lexable(Word(InToken, "in"))
  {
    hide Lexable;
    KeywordIsLexable(ContainsToken, "contains");
    KeywordIsLexable(InToken, "in");
  }

  lemma NullWords()
    ensures Lexable(Word(IsToken, "is")) && Lexable(Word(NullToken, "null"))
  {
    hide Lexable;
    KeywordIsLexable(IsToken, "is");
    KeywordIsLexable(NullToken, "null");
  }

  lemma NotWord()
    ensures Lexable(Word(NotToken, "not"))
  {
    hide Lexable;
    KeywordIsLexable(NotToken, "not");
  }

  lemma JoiningWords()
    ensures Lexable(Word(OrToken, "or")) && Lexable(Word(AndToken, "and"))
  {
    hide Lexable;
    KeywordIsLexable(OrToken, "or");
    KeywordIsLexable(AndToken, "and");
  }

  lemma QuantifierWords()
    ensures Lexable(Word(AnyToken, "any")) && Lexable(Word(AllToken, "all"))
  {
    hide Lexable;
    KeywordIsLexable(AnyToken, "any");
    KeywordIsLexable(AllToken, "all");
  }

  lemma Punctuation()
    ensures Lexable(OPEN) && Lexable(CLOSE) && Lexable(Word(Slash, "/")) && Lexable(Word(Comma, ","))
      && Lexable(Word(Colon, ":"))
  {
    hide WordKind, IsNumber, Quotable, IsValidIdentifier;
  }

  lemma OperatorIsLexable(op: CompareOp)
    ensures AllLexable(OperatorPieces(op))
  {
    hide Lexable;
    EqualityWords();
    GreaterWords();
    LessWords();
    EndsWords();
    InWords();
    NullWords();
    NotWord();
  }

  lemma OneLexable()
    ensures forall p: Piece :: Lexable(p) ==> AllLexable([p])
  {
    hide Lexable;
  }

  lemma BothLexable()
    ensures forall a: seq<Piece>, b: seq<Piece> :: AllLexable(a) && AllLexable(b) ==> AllLexable(a + b)
  {
    hide Lexable;
  }

  lemma {:induction false} PrintIsLexable(e: Expr, parens: bool, style: Style)
    requires Printable(e)
    ensures AllLexable(Shown(e, parens, style))
    decreases e
  {
    hide Bare, PathPieces, HeadPieces, OperandPieces, OperatorPieces, PrintableOperand, Parenthesised, AllLexable,
      Lexable;
    Punctuation();
    OneLexable();
    BothLexable();
    if e.Comparison? {
      BareComparison(e, style);
      PathIsLexable(e.field);
      OperatorIsLexable(e.op);
      OperandIsLexable(e.op, e.literal, e.literals);
    } else if e.Logical? {
      BareLogical(e, style);
      JoiningWords();
      PrintIsLexable(e.left, Parenthesised(e.left, Strength(e.logical), style), style);
      PrintIsLexable(e.right, Parenthesised(e.right, Strength(e.logical) + 1, style), style);
    } else if e.Not? {
      BareNot(e, style);
      NotWord();
      PrintIsLexable(e.operand, Parenthesised(e.operand, 2, style), style);
    } else {
      BareQuantifier(e, style);
      PathIsLexable(e.relationship);
      HeadIsLexable(e.quantifier, e.variable);
      PrintIsLexable(e.body, Parenthesised(e.body, 0, style), style);
    }
  }

  lemma HeadIsLexable(quantifier: QuantifierOp, variable: string)
    requires IsWord(variable)
    ensures AllLexable(HeadPieces(quantifier, variable))
  {
    hide Lexable, IsWord;
    Punctuation();
    QuantifierWords();
    NameIsLexable(variable);
  }

  /** The printed text fits the limits in bytes, tokens, literals and parentheses. */
  ghost predicate TextFits(e: Expr, style: Style, limits: Limits) {
    && |PrintText(e, style)| <= limits.maxFilterBytes
    && |Print(e, 0, style)| <= limits.maxTokens
    && LexemesFit(Print(e, 0, style), limits)
    && Nesting(e, 0, style) <= MAX_PARENTHESIS_NESTING
  }

  /** Parsing what was printed gives the tree back: for every tree the language can
      express, within the limits, and every choice of redundant parentheses. */
  lemma ParsePrint(e: Expr, style: Style, given: Limits)
    requires Printable(e) && TextFits(e, style, WithDefaults(given)) && Fits(e, WithDefaults(given), TOP)
    ensures ParseFilter(PrintText(e, style), given) == Ok(e)
  {
    hide Chain, LexFrom, Fits, Bare, LexemesFit, Spaced, Reads, Printable, Render, TokensOf;
    var limits := WithDefaults(given);
    var parens := Parenthesised(e, 0, style);
    var pieces := Print(e, 0, style);
    assert pieces == Shown(e, parens, style);
    PrintIsLexable(e, parens, style);
    LexRendered(EndOfInput, pieces, "", 0, limits);
    var s := RenderedIsReady(pieces, limits);
    assert "" + s.input == s.input;
    ChainIsRead(s, 0, TOP, Or, e, parens, style);
  }

  /** In particular the shortest text and the fully parenthesised one say the same. */
  lemma MinimalAndFullAgree(e: Expr, given: Limits)
    requires Printable(e) && Fits(e, WithDefaults(given), TOP)
    requires TextFits(e, MINIMAL, WithDefaults(given)) && TextFits(e, FULL, WithDefaults(given))
    ensures ParseFilter(PrintText(e, MINIMAL), given) == ParseFilter(PrintText(e, FULL), given) == Ok(e)
  {
    hide ParseFilter, Printable, Fits, TextFits, PrintText;
    ParsePrint(e, MINIMAL, given);
    ParsePrint(e, FULL, given);
  }

  /** Different trees never print alike, even with parentheses chosen differently. */
  lemma PrintInjective(a: Expr, b: Expr, one: Style, two: Style, given: Limits)
    requires Printable(a) && TextFits(a, one, WithDefaults(given)) && Fits(a, WithDefaults(given), TOP)
    requires Printable(b) && TextFits(b, two, WithDefaults(given)) && Fits(b, WithDefaults(given), TOP)
    requires PrintText(a, one) == PrintText(b, two)
    ensures a == b
  {
    ParsePrint(a, one, given);
    ParsePrint(b, two, given);
  }
}
