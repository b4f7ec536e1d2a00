/** The two filters that pass the parser and fail the guard under the same limits. */
module GuardExamples {
  import opened Common
  import opened Strings
  import opened Ast
  import opened Lexer
  import opened Grammar
  import opened ParseLimits
  import opened ParsedTree
  import opened Rendering
  import opened Printer
  import opened RoundTrip
  import opened GuardAgreement
  import AstGuard

  lemma OneWord(name: string)
    requires IsWord(name)
    ensures Split('/', name) == [name] && IsWordPath(name) && PathPieces(name) == [Word(Identifier, name)]
  {
    SplitOfPrefix('/', name, "");
    assert PathTail([name][1..]) == [];
  }

  lemma {:induction false} ShortText(before: TokenKind, pieces: seq<Piece>, longest: nat)
    requires forall k :: 0 <= k < |pieces| ==> |pieces[k].lexeme| <= longest
    ensures |Render(before, pieces)| <= (longest + 1) * |pieces|
    decreases |pieces|
  {
    if pieces != [] {
      ShortText(pieces[0].kind, pieces[1..], longest);
      assert (longest + 1) * |pieces| == (longest + 1) * |pieces[1..]| + (longest + 1);
    }
  }

  // ---- a boolean literal longer than the limit ----

  const FALSE_LITERAL := Literal(BoolLiteral, "false", BoolValue(false))
  const BOOLEAN_FILTER := Comparison("flag", Eq, FALSE_LITERAL, [])

  lemma BooleanPieces()
    ensures Print(BOOLEAN_FILTER, 0, MINIMAL) ==
      [Word(Identifier, "flag"), Word(EqToken, "eq"), Word(FalseToken, "false")]
    ensures Printable(BOOLEAN_FILTER) && Nesting(BOOLEAN_FILTER, 0, MINIMAL) == 0
    ensures ScopedDepth("flag", []) == 1
  {
    OneWord("flag");
  }

  lemma BooleanFits(limits: Limits)
    requires Positive(limits) && limits.maxFilterBytes >= 18 && limits.maxTokens >= 3
    ensures TextFits(BOOLEAN_FILTER, MINIMAL, limits) && Fits(BOOLEAN_FILTER, limits, TOP)
  {
    hide Render, Print, Printable, ScopedDepth;
    BooleanPieces();
    ShortText(EndOfInput, Print(BOOLEAN_FILTER, 0, MINIMAL), 5);
  }

  /** flag eq false passes the parser and fails the guard when literals may have four bytes. */
  lemma LongBoolean(limits: Limits)
    requires Positive(limits) && limits.maxLiteralBytes == 4 && limits.maxFilterBytes >= 18 && limits.maxTokens >= 3
    ensures ParseFilter(PrintText(BOOLEAN_FILTER, MINIMAL), limits) == Ok(BOOLEAN_FILTER)
    ensures !AstGuard.Admissible(BOOLEAN_FILTER, limits)
  {
    hide ParseFilter, TextFits, Fits, Printable;
    BooleanPieces();
    BooleanFits(limits);
    assert WithDefaults(limits) == limits;
    ParsePrint(BOOLEAN_FILTER, MINIMAL, limits);
  }

  // ---- a quantifier variable named asc ----

  const DIRECTION_BODY := Comparison("asc/x", IsNull, NO_LITERAL, [])
  const DIRECTION_FILTER := Quantifier("t", Any, "asc", DIRECTION_BODY)

  lemma TwoWords(first: string, second: string)
    requires IsWord(first) && IsWord(second)
    ensures var path := first + "/" + second;
      && Split('/', path) == [first, second] && IsWordPath(path)
      && PathPieces(path) == [Word(Identifier, first), Word(Slash, "/"), Word(Identifier, second)]
  {
    hide IsWordPath;
    assert '/' !in first by { assert IsValidIdentifier(first); }
    SplitOfPrefix('/', first, second);
    OneWord(second);
    var names := [first, second];
    assert names[1..] == [second] && PathTail([second][1..]) == [];
    WordsMakeAPath(first + "/" + second, names);
  }

  lemma WordsMakeAPath(path: string, names: seq<string>)
    requires Split('/', path) == names && forall k :: 0 <= k < |names| ==> IsWord(names[k])
    ensures IsWordPath(path)
  {}

  lemma Words()
    ensures IsWord("t") && IsWord("asc") && IsWord("x")
  {}

  lemma DirectionBody()
    ensures Print(DIRECTION_BODY, 0, MINIMAL) ==
      [Word(Identifier, "asc"), Word(Slash, "/"), Word(Identifier, "x")] +
        [Word(IsToken, "is"), Word(NullToken, "null")]
    ensures Printable(DIRECTION_BODY) && Nesting(DIRECTION_BODY, 0, MINIMAL) == 0
    ensures ScopedDepth("asc/x", ["asc"]) == 1
  {
    hide IsWord, PathPieces, IsWordPath, Split;
    Words();
    assert "asc" + "/" + "x" == "asc/x";
    TwoWords("asc", "x");
  }

  lemma DirectionPieces()
    ensures var pieces := Print(DIRECTION_FILTER, 0, MINIMAL);
      |pieces| == 12 && forall k :: 0 <= k < |pieces| ==>
        |pieces[k].lexeme| <= 4 && pieces[k].kind !in {StringToken, NumberToken}
    ensures Printable(DIRECTION_FILTER) && Nesting(DIRECTION_FILTER, 0, MINIMAL) == 1
    ensures ScopedDepth("t", []) == 1
  {
    hide IsWord, PathPieces, IsWordPath, Split, Render;
    Words();
    OneWord("t");
    DirectionBody();
    var body := Print(DIRECTION_BODY, 0, MINIMAL);
    assert Print(DIRECTION_FILTER, 0, MINIMAL) == [Word(Identifier, "t")] + HeadPieces(Any, "asc") + body + [CLOSE] by {
      hide Printable;
    }
  }

  lemma DirectionFits(limits: Limits)
    requires Positive(limits) && limits.maxFilterBytes >= 60 && limits.maxTokens >= 12
    requires limits.maxNodes >= 2 && limits.maxExpressionDepth >= 2
    ensures TextFits(DIRECTION_FILTER, MINIMAL, limits) && Fits(DIRECTION_FILTER, limits, TOP)
  {
    hide Render, Print, Printable, ScopedDepth;
    DirectionPieces();
    DirectionBody();
    ShortText(EndOfInput, Print(DIRECTION_FILTER, 0, MINIMAL), 4);
    ParseLimits.QuantifierFits("t", Any, "asc", DIRECTION_BODY, limits, TOP);
    assert BodyScope(TOP, "asc") == Scope(1, 1, ["asc"]);
    assert Fits(DIRECTION_BODY, limits, Scope(1, 1, ["asc"]));
    assert Size(DIRECTION_BODY) == 1 && Height(DIRECTION_BODY) == 1;
  }

  /** t/any(asc: asc/x is null) passes the parser and fails the guard under any limits
      that leave room for it. */
  lemma DirectionVariable(limits: Limits)
    requires Positive(limits) && limits.maxFilterBytes >= 60 && limits.maxTokens >= 12
    requires limits.maxNodes >= 2 && limits.maxExpressionDepth >= 2
    ensures ParseFilter(PrintText(DIRECTION_FILTER, MINIMAL), limits) == Ok(DIRECTION_FILTER)
    ensures !AstGuard.Admissible(DIRECTION_FILTER, limits)
  {
    hide ParseFilter, TextFits, Fits, Printable;
    DirectionPieces();
    DirectionFits(limits);
    assert WithDefaults(limits) == limits;
    ParsePrint(DIRECTION_FILTER, MINIMAL, limits);
  }
}
