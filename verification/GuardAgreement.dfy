/** The parser's checks and inspectAST's, on the trees the parser produces. */
module GuardAgreement {
  import opened Ast
  import opened Lexer
  import opened Grammar
  import opened ParseLimits
  import opened ParsedTree
  import opened AstGuard

  // No quantifier variable is named asc or desc, which the lexer takes for a name.
  predicate NoDirectionVariables(e: Expr) {
    match e
    case Comparison(_, _, _, _) => true
    case Logical(_, left, right) => NoDirectionVariables(left) && NoDirectionVariables(right)
    case Not(operand) => NoDirectionVariables(operand)
    case Quantifier(_, _, variable, body) => variable != "asc" && variable != "desc" && NoDirectionVariables(body)
  }

  ghost predicate BoolsFit(e: Expr, limits: Limits) {
    forall l :: l in LiteralsOf(e) && l.kind == BoolLiteral ==> |l.raw| <= limits.maxLiteralBytes
  }

  ghost predicate LiteralsFit(literals: seq<Literal>, limits: Limits) {
    forall l :: l in literals ==> LiteralBytes(l) <= limits.maxLiteralBytes
  }

  lemma PathFits(path: string, variables: seq<string>, limits: Limits)
    requires ScopedDepth(path, variables) <= limits.maxPathDepth
    ensures AstGuard.PathDepth(path) <= limits.maxPathDepth + 1
  {}

  lemma {:induction false} NestingAdmitted(e: Expr, limits: Limits, quant: nat, variables: seq<string>)
    requires Admits(e, limits, quant, variables) && quant <= limits.maxQuantifierDepth
    ensures quant + QuantifierNesting(e) <= limits.maxQuantifierDepth
  {
    match e
    case Comparison(_, _, _, _) =>
    case Logical(_, left, right) =>
      NestingAdmitted(left, limits, quant, variables);
      NestingAdmitted(right, limits, quant, variables);
    case Not(operand) => NestingAdmitted(operand, limits, quant, variables);
    case Quantifier(_, _, variable, body) => NestingAdmitted(body, limits, quant + 1, variables + [variable]);
  }

  lemma {:induction false} NodesFitAsParsed(e: Expr, limits: Limits, quant: nat, variables: seq<string>)
    requires AsParsed(e) && Admits(e, limits, quant, variables) && Positive(limits)
    ensures NodesFit(e, limits) <==> LiteralsFit(LiteralsOf(e), limits) && NoDirectionVariables(e)
  {
    hide ScopedDepth, IsWordPath, AstGuard.PathDepth;
    match e
    case Comparison(field, _, literal, literals) =>
      PathFits(field, variables, limits);
      assert literals != [] ==> forall i :: 0 <= i < |literals| ==> literals[i] in LiteralsOf(e);
      assert literal != NO_LITERAL ==> LiteralsOf(e)[0] == literal;
    case Logical(_, left, right) =>
      NodesFitAsParsed(left, limits, quant, variables);
      NodesFitAsParsed(right, limits, quant, variables);
    case Not(operand) => NodesFitAsParsed(operand, limits, quant, variables);
    case Quantifier(relationship, _, variable, body) =>
      PathFits(relationship, variables, limits);
      NodesFitAsParsed(body, limits, quant + 1, variables + [variable]);
  }

  lemma {:induction false} DoubledIsLonger(text: string)
    ensures |Doubled(text)| >= |text|
  {
    if text != "" {
      DoubledIsLonger(text[1..]);
    }
  }

  lemma LexedLiteralBytes(input: string, from: nat, t: Token)
    requires InPlace(input, from, t) && LiteralOf(t).Some?
    ensures LiteralBytes(LiteralOf(t).value) == |t.lexeme| == |LiteralOf(t).value.raw|
    ensures LiteralOf(t).value.kind != BoolLiteral <==> t.kind == StringToken || t.kind == NumberToken
  {
    DoubledIsLonger(t.value);
  }

  // A literal fits as a node exactly when its token fits, but for boolean tokens,
  // whose length the lexer does not check.
  lemma {:induction false} TokenLiteralsFit(input: string, tokens: seq<Token>, from: nat, limits: Limits)
    requires from <= |tokens| && Tiles(input, 0, tokens) && TokensFit(tokens, 0, limits)
    ensures var literals := TokenLiterals(tokens, from, |tokens|);
      LiteralsFit(literals, limits) <==>
      forall l :: l in literals && l.kind == BoolLiteral ==> |l.raw| <= limits.maxLiteralBytes
    decreases |tokens| - from
  {
    hide InPlace, LiteralOf, LiteralBytes;
    if from < |tokens| {
      TokenLiteralsFit(input, tokens, from + 1, limits);
      var t := tokens[from];
      assert InPlace(input, GapStart(0, tokens, from), t);
      assert !LiteralTooLong(t, limits);
      if LiteralOf(t).Some? {
        LexedLiteralBytes(input, GapStart(0, tokens, from), t);
      }
    }
  }

  /** Every filter the parser accepts is an admissible tree for inspectAST under the same
      limits, unless a boolean literal is too long or a variable is named asc or desc. */
  lemma ParserAndGuardAgree(input: string, limits: Limits)
    requires Positive(limits) && ParseFilter(input, limits).Ok?
    ensures var e := ParseFilter(input, limits).value;
      Admissible(e, limits) <==> BoolsFit(e, limits) && NoDirectionVariables(e)
  {
    hide ParseFilter, LexFrom, TokensFit, TokenLiterals, Admits;
    var e := ParseFilter(input, limits).value;
    var tokens := ParsedTokens(input, limits);
    TokenLiteralsFit(input, tokens, 0, limits);
    NestingAdmitted(e, limits, 0, []);
    NodesFitAsParsed(e, limits, 0, []);
  }

  lemma ParsedTokens(input: string, limits: Limits) returns (tokens: seq<Token>)
    requires Positive(limits) && ParseFilter(input, limits).Ok?
    ensures var e := ParseFilter(input, limits).value;
      && Tiles(input, 0, tokens) && TokensFit(tokens, 0, limits)
      && LiteralsOf(e) == TokenLiterals(tokens, 0, |tokens|) && AsParsed(e) && Fits(e, limits, TOP)
  {
    hide Chain, LexFrom, TokensFit, Tiles;
    assert WithDefaults(limits) == limits;
    tokens := Lex(input, limits).value;
    ParseUnderOtherLimits(input, limits, limits);
    ParsedLiterals(input, limits);
    LexTiles(input, 0, 0, limits);
  }

  lemma {:induction false} BoolsAreShort(input: string, tokens: seq<Token>, from: nat)
    requires from <= |tokens| && BoolWordsShort(tokens)
    ensures forall l :: l in TokenLiterals(tokens, from, |tokens|) && l.kind == BoolLiteral ==> |l.raw| <= 5
    decreases |tokens| - from
  {
    if from < |tokens| {
      BoolsAreShort(input, tokens, from + 1);
    }
  }

  ghost predicate BoolWordsShort(tokens: seq<Token>) {
    forall k :: 0 <= k < |tokens| ==> (tokens[k].kind in {TrueToken, FalseToken} ==> |tokens[k].lexeme| <= 5)
  }

  lemma {:induction false} LexedWords(input: string, pos: nat, count: nat, limits: Limits)
    requires pos <= |input| && LexFrom(input, pos, count, limits).Ok?
    ensures BoolWordsShort(LexFrom(input, pos, count, limits).value)
    decreases |input| - pos
  {
    hide Next;
    var t := Next(input, pos).value;
    assert t.kind in {TrueToken, FalseToken} ==> |t.lexeme| <= 5 by { BoolWord(input, pos); }
    if t.kind != EndOfInput {
      LexedWords(input, t.end, count + 1, limits);
    }
  }

  lemma BoolWord(input: string, pos: nat)
    requires pos <= |input| && Next(input, pos).Ok?
    ensures var t := Next(input, pos).value; t.kind in {TrueToken, FalseToken} ==> |t.lexeme| <= 5
  {
    hide StringRest, NumberEnd;
  }

  /** The condition a configuration can meet once and for all: literals of five bytes. */
  lemma GuardAcceptsParsed(input: string, limits: Limits, root: Ref)
    requires Positive(limits) && ParseFilter(input, limits).Ok? && limits.maxLiteralBytes >= 5
    requires NoDirectionVariables(ParseFilter(input, limits).value)
    requires Spells(root, ParseFilter(input, limits).value).Some?
    ensures Accepts([Frame(root, 1, 0)], {}, limits)
  {
    hide ParseFilter, Accepts, Admissible, Spells, BoolsFit;
    var e := ParseFilter(input, limits).value;
    assert BoolsFit(e, limits) by { ParsedBoolsFit(input, limits); }
    ParserAndGuardAgree(input, limits);
    AcceptsExactlyTrees(root, limits);
  }

  lemma ParsedBoolsFit(input: string, limits: Limits)
    requires Positive(limits) && ParseFilter(input, limits).Ok? && limits.maxLiteralBytes >= 5
    ensures BoolsFit(ParseFilter(input, limits).value, limits)
  {
    hide Chain, LexFrom, TokenLiterals;
    assert WithDefaults(limits) == limits;
    var tokens := Lex(input, limits).value;
    ParsedLiterals(input, limits);
    LexedWords(input, 0, 0, limits);
    BoolsAreShort(input, tokens, 0);
  }
}
