/** lexer.go: filter text to tokens with byte spans. */
module Lexer {
  import opened Common
  import opened Strings
  import opened Ast

  datatype TokenKind =
    | EndOfInput | Identifier | StringToken | NumberToken | TrueToken | FalseToken
    | EqToken | NeToken | GtToken | GteToken | LtToken | LteToken
    | ContainsToken | StartsWithToken | EndsWithToken | InToken | IsToken | NullToken
    | NotToken | AndToken | OrToken | LeftParen | RightParen | Comma | Slash | Colon | AnyToken | AllToken

  datatype Token = Token(kind: TokenKind, lexeme: string, value: string, start: nat, end: nat)

  function WordKind(word: string): TokenKind {
    if word == "true" then TrueToken else if word == "false" then FalseToken
    else if word == "eq" then EqToken else if word == "ne" then NeToken
    else if word == "gt" then GtToken else if word == "gte" then GteToken
    else if word == "lt" then LtToken else if word == "lte" then LteToken
    else if word == "contains" then ContainsToken else if word == "startswith" then StartsWithToken
    else if word == "endswith" then EndsWithToken else if word == "in" then InToken
    else if word == "is" then IsToken else if word == "null" then NullToken
    else if word == "not" then NotToken else if word == "and" then AndToken
    else if word == "or" then OrToken else if word == "any" then AnyToken
    else if word == "all" then AllToken else Identifier
  }

  lemma WordKindIsKeyword(word: string)
    ensures WordKind(word) == Identifier <==> word !in KEYWORDS
  {}

  function PunctuationKind(c: char): Option<TokenKind> {
    if c == '(' then Some(LeftParen) else if c == ')' then Some(RightParen)
    else if c == ',' then Some(Comma) else if c == '/' then Some(Slash)
    else if c == ':' then Some(Colon) else None
  }

  // ---- maximal runs ----

  function SkipWhitespace(input: string, pos: nat): (end: nat)
    requires pos <= |input|
    ensures pos <= end <= |input|
    ensures forall i :: pos <= i < end ==> IsWhitespace(input[i])
    ensures end < |input| ==> !IsWhitespace(input[end])
    decreases |input| - pos
  {
    if pos < |input| && IsWhitespace(input[pos]) then SkipWhitespace(input, pos + 1) else pos
  }

  function WordEnd(input: string, pos: nat): (end: nat)
    requires pos <= |input|
    ensures pos <= end <= |input|
    ensures forall i :: pos <= i < end ==> IsIdentifierContinue(input[i])
    ensures end < |input| ==> !IsIdentifierContinue(input[end])
    decreases |input| - pos
  {
    if pos < |input| && IsIdentifierContinue(input[pos]) then WordEnd(input, pos + 1) else pos
  }

  lemma {:induction false} WordEndAt(input: string, pos: nat, end: nat)
    requires pos <= end <= |input| && (forall i :: pos <= i < end ==> IsIdentifierContinue(input[i]))
    requires end < |input| ==> !IsIdentifierContinue(input[end])
    ensures WordEnd(input, pos) == end
    decreases end - pos
  {
    if pos < end {
      WordEndAt(input, pos + 1, end);
    }
  }

  function DigitsEnd(input: string, pos: nat): (end: nat)
    requires pos <= |input|
    ensures pos <= end <= |input|
    ensures forall i :: pos <= i < end ==> IsDigit(input[i])
    ensures end < |input| ==> !IsDigit(input[end])
    decreases |input| - pos
  {
    if pos < |input| && IsDigit(input[pos]) then DigitsEnd(input, pos + 1) else pos
  }

  // ---- strings ----

  predicate IsControl(c: char) { c <= 0x1f as char || c == 0x7f as char }

  predicate ClosingQuote(input: string, pos: nat) {
    pos < |input| && input[pos] == '\'' && !(pos + 1 < |input| && input[pos + 1] == '\'')
  }

  // One character of a string literal: where it ends and what it stands for.
  function StringPiece(input: string, pos: nat): (piece: Option<(nat, string)>)
    requires pos < |input| && !ClosingQuote(input, pos)
    ensures piece.Some? ==> pos < piece.value.0 <= |input|
  {
    var c := input[pos];
    if c == '\'' then Some((pos + 2, "'"))
    else if IsControl(c) then None
    else if c < 0x80 as char then Some((pos + 1, [c]))
    else
      var size := RuneSize(input, pos);
      if size == 1 then None else Some((pos + size, input[pos..pos + size]))
  }

  // The rest of a string literal after its opening quote: where it ends and its value.
  function StringRest(input: string, pos: nat): (result: Result<(nat, string)>)
    requires pos <= |input|
    ensures result.Ok? ==> pos < result.value.0 <= |input|
    ensures result.Err? ==> result.code == InvalidToken
    decreases |input| - pos
  {
    if pos == |input| then Err(InvalidToken)
    else if ClosingQuote(input, pos) then Ok((pos + 1, ""))
    else
      match StringPiece(input, pos)
      case None => Err(InvalidToken)
      case Some((next, part)) =>
        var rest :- StringRest(input, next);
        Ok((rest.0, part + rest.1))
  }

  // ---- numbers ----

  function IntegerEnd(input: string, start: nat): (result: Result<nat>)
    requires start < |input| && (input[start] == '-' || IsDigit(input[start]))
    ensures result.Err? ==> result.code == InvalidToken
    ensures result.Ok? ==> start < result.value <= |input|
  {
    var pos := if input[start] == '-' then start + 1 else start;
    if pos == |input| || !IsDigit(input[pos]) then Err(InvalidToken)
    else if input[pos] == '0' then
      if pos + 1 < |input| && IsDigit(input[pos + 1]) then Err(InvalidToken) else Ok(pos + 1)
    else Ok(DigitsEnd(input, pos))
  }

  function FractionEnd(input: string, pos: nat): (result: Result<nat>)
    requires pos <= |input|
    ensures result.Err? ==> result.code == InvalidToken
    ensures result.Ok? ==> pos <= result.value <= |input|
  {
    if pos < |input| && input[pos] == '.' then
      if pos + 1 == |input| || !IsDigit(input[pos + 1]) then Err(InvalidToken) else Ok(DigitsEnd(input, pos + 1))
    else Ok(pos)
  }

  function ExponentEnd(input: string, pos: nat): (result: Result<nat>)
    requires pos <= |input|
    ensures result.Err? ==> result.code == InvalidToken
    ensures result.Ok? ==> pos <= result.value <= |input|
  {
    if pos < |input| && (input[pos] == 'e' || input[pos] == 'E') then
      var digits := if pos + 1 < |input| && (input[pos + 1] == '+' || input[pos + 1] == '-') then pos + 2 else pos + 1;
      if digits == |input| || !IsDigit(input[digits]) then Err(InvalidToken) else Ok(DigitsEnd(input, digits))
    else Ok(pos)
  }

  function NumberEnd(input: string, start: nat): (result: Result<nat>)
    requires start < |input| && (input[start] == '-' || IsDigit(input[start]))
    ensures result.Err? ==> result.code == InvalidToken
    ensures result.Ok? ==> start < result.value <= |input|
  {
    var integer :- IntegerEnd(input, start);
    var fraction :- FractionEnd(input, integer);
    var end :- ExponentEnd(input, fraction);
    if end < |input| && input[end] == '.' then Err(InvalidToken) else Ok(end)
  }

  // ---- tokens ----

  // The token that starts at a byte which is not whitespace.
  function TokenAt(input: string, start: nat): (result: Result<Token>)
    requires start < |input|
    ensures result.Ok? ==>
      var t := result.value;
      t.kind != EndOfInput && t.start == start < t.end <= |input| && t.lexeme == input[start..t.end]
  {
    var c := input[start];
    if IsIdentifierStart(c) then
      var end := WordEnd(input, start + 1);
      var word := input[start..end];
      Ok(Token(WordKind(word), word, word, start, end))
    else if c == '\'' then
      var rest :- StringRest(input, start + 1);
      Ok(Token(StringToken, input[start..rest.0], rest.1, start, rest.0))
    else if c == '-' || IsDigit(c) then
      var end :- NumberEnd(input, start);
      Ok(Token(NumberToken, input[start..end], input[start..end], start, end))
    else if PunctuationKind(c).Some? then
      Ok(Token(PunctuationKind(c).value, [c], [c], start, start + 1))
    else Err(InvalidToken)
  }

  function Next(input: string, pos: nat): (result: Result<Token>)
    requires pos <= |input|
    ensures result.Ok? ==>
      var t := result.value;
      && pos <= t.start <= t.end <= |input|
      && (forall i :: pos <= i < t.start ==> IsWhitespace(input[i]))
      && (t.kind == EndOfInput <==> t.start == |input|)
      && (t.kind != EndOfInput ==> t.start < t.end)
      && t.lexeme == input[t.start..t.end]
  {
    var start := SkipWhitespace(input, pos);
    if start == |input| then Ok(Token(EndOfInput, "", "", start, start)) else TokenAt(input, start)
  }

  predicate LiteralTooLong(t: Token, limits: Limits) {
    (t.kind == StringToken || t.kind == NumberToken) && |t.lexeme| > limits.maxLiteralBytes
  }

  // The tokens from pos on, when count tokens have been produced already.
  function LexFrom(input: string, pos: nat, count: nat, limits: Limits): Result<seq<Token>>
    requires pos <= |input|
    decreases |input| - pos
  {
    var t :- Next(input, pos);
    if t.kind != EndOfInput && count >= limits.maxTokens then Err(LimitExceeded)
    else if LiteralTooLong(t, limits) then Err(LimitExceeded)
    else if t.kind == EndOfInput then Ok([t])
    else
      var rest :- LexFrom(input, t.end, count + 1, limits);
      Ok([t] + rest)
  }

  function Lex(input: string, limits: Limits): Result<seq<Token>> { LexFrom(input, 0, 0, limits) }

  // ---- the lexer ----

  class FilterLexer {
    const input: string
    var pos: nat

    constructor (input: string)
      ensures this.input == input && pos == 0
    {
      this.input := input;
      pos := 0;
    }

    method SkipSpacing()
      requires pos <= |input|
      modifies this
      ensures pos == SkipWhitespace(input, old(pos))
    {
      while pos < |input| && IsWhitespace(input[pos])
        invariant pos <= |input| && SkipWhitespace(input, pos) == SkipWhitespace(input, old(pos))
      {
        pos := pos + 1;
      }
    }

    method SkipDigits()
      requires pos <= |input|
      modifies this
      ensures pos == DigitsEnd(input, old(pos))
    {
      while pos < |input| && IsDigit(input[pos])
        invariant pos <= |input| && DigitsEnd(input, pos) == DigitsEnd(input, old(pos))
      {
        pos := pos + 1;
      }
    }

    method ScanIdentifier() returns (t: Token)
      requires pos < |input| && IsIdentifierStart(input[pos])
      modifies this
      ensures pos == WordEnd(input, old(pos) + 1)
      ensures t == Token(WordKind(input[old(pos)..pos]), input[old(pos)..pos], input[old(pos)..pos], old(pos), pos)
    {
      var start := pos;
      pos := pos + 1;
      while pos < |input| && IsIdentifierContinue(input[pos])
        invariant start < pos <= |input| && WordEnd(input, pos) == WordEnd(input, start + 1)
      {
        pos := pos + 1;
      }
      var lexeme := input[start..pos];
      t := Token(WordKind(lexeme), lexeme, lexeme, start, pos);
    }

    method ScanString() returns (result: Result<Token>)
      requires pos < |input|
      modifies this
      ensures var rest := StringRest(input, old(pos) + 1);
        if rest.Ok? then
          pos == rest.value.0 && result == Ok(Token(StringToken, input[old(pos)..pos], rest.value.1, old(pos), pos))
        else result == Err(rest.code)
    {
      var start := pos;
      pos := pos + 1;
      var value := "";
      ghost var spec := StringRest(input, pos);
      assert spec.Ok? ==> "" + spec.value.1 == spec.value.1;
      while pos < |input|
        invariant start < pos <= |input|
        invariant spec == WithPrefix(value, StringRest(input, pos))
      {
        hide RuneSize;
        StringRestSteps(input, pos, value);
        var c := input[pos];
        if c == '\'' {
          if pos + 1 < |input| && input[pos + 1] == '\'' {
            value := value + ['\''];
            pos := pos + 2;
            continue;
          }
          pos := pos + 1;
          return Ok(Token(StringToken, input[start..pos], value, start, pos));
        }
        if IsControl(c) {
          return Err(InvalidToken);
        }
        if c < 0x80 as char {
          value := value + [c];
          pos := pos + 1;
          continue;
        }
        var size := RuneSize(input, pos);
        if size == 1 {
          return Err(InvalidToken);
        }
        value := value + input[pos..pos + size];
        pos := pos + size;
      }
      return Err(InvalidToken);
    }

    method ScanInteger() returns (ok: bool)
      requires pos < |input| && (input[pos] == '-' || IsDigit(input[pos]))
      modifies this
      ensures ok == IntegerEnd(input, old(pos)).Ok? && (ok ==> pos == IntegerEnd(input, old(pos)).value)
    {
      if input[pos] == '-' {
        pos := pos + 1;
        if pos == |input| {
          return false;
        }
        if !IsDigit(input[pos]) {
          return false;
        }
      }
      if input[pos] == '0' {
        pos := pos + 1;
        if pos < |input| && IsDigit(input[pos]) {
          return false;
        }
      } else {
        SkipDigits();
      }
      return true;
    }

    method ScanFraction() returns (ok: bool)
      requires pos <= |input|
      modifies this
      ensures ok == FractionEnd(input, old(pos)).Ok? && (ok ==> pos == FractionEnd(input, old(pos)).value)
    {
      if pos < |input| && input[pos] == '.' {
        pos := pos + 1;
        if pos == |input| {
          return false;
        }
        if !IsDigit(input[pos]) {
          return false;
        }
        SkipDigits();
      }
      return true;
    }

    method ScanExponent() returns (ok: bool)
      requires pos <= |input|
      modifies this
      ensures ok == ExponentEnd(input, old(pos)).Ok? && (ok ==> pos == ExponentEnd(input, old(pos)).value)
    {
      if pos < |input| && (input[pos] == 'e' || input[pos] == 'E') {
        pos := pos + 1;
        if pos < |input| && (input[pos] == '+' || input[pos] == '-') {
          pos := pos + 1;
        }
        if pos == |input| {
          return false;
        }
        if !IsDigit(input[pos]) {
          return false;
        }
        SkipDigits();
      }
      return true;
    }

    method ScanNumber() returns (result: Result<Token>)
      requires pos < |input| && (input[pos] == '-' || IsDigit(input[pos]))
      modifies this
      ensures var end := NumberEnd(input, old(pos));
        if end.Ok? then
          pos == end.value
            && result == Ok(Token(NumberToken, input[old(pos)..pos], input[old(pos)..pos], old(pos), pos))
        else result == Err(end.code)
    {
      hide IntegerEnd, FractionEnd, ExponentEnd;
      var start := pos;
      var ok := ScanInteger();
      if !ok {
        return Err(InvalidToken);
      }
      ok := ScanFraction();
      if !ok {
        return Err(InvalidToken);
      }
      ok := ScanExponent();
      if !ok {
        return Err(InvalidToken);
      }
      if pos < |input| && input[pos] == '.' {
        return Err(InvalidToken);
      }
      return Ok(Token(NumberToken, input[start..pos], input[start..pos], start, pos));
    }

    method NextToken() returns (result: Result<Token>)
      requires pos <= |input|
      modifies this
      ensures result == Next(input, old(pos))
      ensures result.Ok? ==> pos == result.value.end
    {
      SkipSpacing();
      if pos == |input| {
        return Ok(Token(EndOfInput, "", "", pos, pos));
      }
      var start := pos;
      var c := input[pos];
      if IsIdentifierStart(c) {
        var t := ScanIdentifier();
        return Ok(t);
      }
      if c == '\'' {
        result := ScanString();
        return;
      }
      if c == '-' || IsDigit(c) {
        result := ScanNumber();
        return;
      }
      var kind := PunctuationKind(c);
      if kind.None? {
        return Err(InvalidToken);
      }
      pos := pos + 1;
      assert input[start..pos] == [c];
      return Ok(Token(kind.value, input[start..pos], input[start..pos], start, pos));
    }
  }

  function WithPrefix(front: string, rest: Result<(nat, string)>): Result<(nat, string)> {
    if rest.Err? then rest else Ok((rest.value.0, front + rest.value.1))
  }

  lemma StringRestSteps(input: string, pos: nat, front: string)
    requires pos < |input|
    ensures var spec := WithPrefix(front, StringRest(input, pos));
      if ClosingQuote(input, pos) then spec == Ok((pos + 1, front))
      else
        match StringPiece(input, pos)
        case None => spec == Err(InvalidToken)
        case Some((next, part)) => spec == WithPrefix(front + part, StringRest(input, next))
  {
    hide StringPiece, ClosingQuote;
    if ClosingQuote(input, pos) {
      assert front + "" == front;
    } else if StringPiece(input, pos).Some? {
      var (next, part) := StringPiece(input, pos).value;
      var rest := StringRest(input, next);
      assert rest.Ok? ==> (front + part) + rest.value.1 == front + (part + rest.value.1);
    }
  }

  function Appended(front: seq<Token>, rest: Result<seq<Token>>): Result<seq<Token>> {
    if rest.Err? then rest else Ok(front + rest.value)
  }

  /** lexFilterWithLimits */
  method LexFilter(input: string, limits: Limits) returns (result: Result<seq<Token>>)
    ensures result == Lex(input, limits)
  {
    hide Next, LexFrom, LiteralTooLong;
    var l := new FilterLexer(input);
    var tokens: seq<Token> := [];
    ghost var spec := Lex(input, limits);
    assert spec.Ok? ==> [] + spec.value == spec.value;
    while true
      invariant l.input == input && l.pos <= |input|
      invariant spec == Appended(tokens, LexFrom(input, l.pos, |tokens|, limits))
      decreases |input| - l.pos
    {
      LexFromSteps(input, l.pos, tokens, limits);
      var t :- l.NextToken();
      TooLongMeans(t, limits);
      if t.kind != EndOfInput && |tokens| >= limits.maxTokens {
        return Err(LimitExceeded);
      }
      if t.kind == StringToken || t.kind == NumberToken {
        if |t.lexeme| > limits.maxLiteralBytes {
          return Err(LimitExceeded);
        }
      }
      tokens := tokens + [t];
      if t.kind == EndOfInput {
        return Ok(tokens);
      }
    }
  }

  lemma TooLongMeans(t: Token, limits: Limits)
    ensures LiteralTooLong(t, limits) <==>
      (t.kind == StringToken || t.kind == NumberToken) && |t.lexeme| > limits.maxLiteralBytes
  {}

  lemma LexFromSteps(input: string, pos: nat, front: seq<Token>, limits: Limits)
    requires pos <= |input|
    ensures var next := Next(input, pos); var spec := Appended(front, LexFrom(input, pos, |front|, limits));
      if next.Err? then spec == Err(next.code)
      else
        var t := next.value;
        if (t.kind != EndOfInput && |front| >= limits.maxTokens) || LiteralTooLong(t, limits)
        then spec == Err(LimitExceeded)
        else if t.kind == EndOfInput then spec == Ok(front + [t])
        else spec == Appended(front + [t], LexFrom(input, t.end, |front| + 1, limits))
  {
    hide Next;
    var next := Next(input, pos);
    if next.Ok? && next.value.kind != EndOfInput {
      var later := LexFrom(input, next.value.end, |front| + 1, limits);
      assert later.Ok? ==> front + ([next.value] + later.value) == (front + [next.value]) + later.value;
    }
  }

  // ---- what the tokens say about the input ----

  // s'.doubled apostrophes
  function Doubled(text: string): string {
    if text == "" then ""
    else (if text[0] == '\'' then "''" else [text[0]]) + Doubled(text[1..])
  }

  function Quote(text: string): string { "'" + Doubled(text) + "'" }

  lemma {:induction false} DoubledAppend(a: string, b: string)
    ensures Doubled(a + b) == Doubled(a) + Doubled(b)
  {
    if a == "" {
      assert a + b == b;
    } else {
      DoubledAppend(a[1..], b);
      assert (a + b)[1..] == a[1..] + b && (a + b)[0] == a[0];
      var head := if a[0] == '\'' then "''" else [a[0]];
      assert head + (Doubled(a[1..]) + Doubled(b)) == (head + Doubled(a[1..])) + Doubled(b);
    }
  }

  lemma {:induction false} NothingDoubled(text: string)
    requires '\'' !in text
    ensures Doubled(text) == text
  {
    if text != "" {
      NothingDoubled(text[1..]);
    }
  }

  lemma RuneHasNoQuote(input: string, pos: nat)
    requires pos < |input| && input[pos] >= 0x80 as char && RuneSize(input, pos) > 1
    ensures '\'' !in input[pos..pos + RuneSize(input, pos)]
  {
    var size := RuneSize(input, pos);
    var rune := input[pos..pos + size];
    assert rune[0] >= 0x80 as char && rune[1] >= 0x80 as char;
    assert size > 2 ==> rune[2] >= 0x80 as char;
    assert size > 3 ==> rune[3] >= 0x80 as char;
  }

  /** A string token's text is its value with the apostrophes doubled. */
  lemma {:induction false} StringRestDoubles(input: string, pos: nat)
    requires pos <= |input| && StringRest(input, pos).Ok?
    ensures var rest := StringRest(input, pos).value; input[pos..rest.0] == Doubled(rest.1) + "'"
    decreases |input| - pos
  {
    hide StringPiece, Doubled;
    var rest := StringRest(input, pos).value;
    if ClosingQuote(input, pos) {
      DoubledApostrophe("");
      assert input[pos..pos + 1] == "'";
    } else {
      var (next, part) := StringPiece(input, pos).value;
      var later := StringRest(input, next).value;
      StringRestDoubles(input, next);
      StringPieceDoubles(input, pos);
      DoubledAppend(part, later.1);
      assert input[pos..rest.0] == input[pos..next] + input[next..rest.0];
    }
  }

  lemma StringPieceDoubles(input: string, pos: nat)
    requires pos < |input| && !ClosingQuote(input, pos) && StringPiece(input, pos).Some?
    ensures var (next, part) := StringPiece(input, pos).value; input[pos..next] == Doubled(part)
  {
    hide RuneSize, Doubled;
    var (next, part) := StringPiece(input, pos).value;
    var c := input[pos];
    if c == '\'' {
      DoubledApostrophe("");
      assert "'" + "" == "'" && "''" + "" == "''";
      assert input[pos..next] == "''";
    } else {
      if c >= 0x80 as char {
        RuneHasNoQuote(input, pos);
      } else {
        assert input[pos..next] == [c];
      }
      NothingDoubled(part);
    }
  }

  lemma DoubledApostrophe(text: string)
    ensures Doubled("'" + text) == "''" + Doubled(text) && Doubled("") == ""
  {
    assert ("'" + text)[1..] == text;
  }

  // A token in its place: only whitespace before it, its lexeme its span, a string its quoted value.
  ghost predicate InPlace(input: string, from: nat, t: Token) {
    && from <= t.start <= t.end <= |input|
    && (forall i :: from <= i < t.start ==> IsWhitespace(input[i]))
    && t.lexeme == input[t.start..t.end]
    && (t.kind == EndOfInput <==> t.start == |input|)
    && (t.kind != EndOfInput ==> t.start < t.end)
    && if t.kind == StringToken then t.lexeme == Quote(t.value) else t.value == t.lexeme
  }

  function GapStart(pos: nat, tokens: seq<Token>, k: nat): nat
    requires k <= |tokens|
  {
    if k == 0 then pos else tokens[k - 1].end
  }

  /** Tokens tile the input: spans in order with nothing but whitespace between them,
      and one end mark, last, at the end of the input. */
  ghost predicate Tiles(input: string, pos: nat, tokens: seq<Token>) {
    && tokens != []
    && (forall k :: 0 <= k < |tokens| ==> InPlace(input, GapStart(pos, tokens, k), tokens[k]))
    && (forall k :: 0 <= k < |tokens| ==> (tokens[k].kind == EndOfInput <==> k == |tokens| - 1))
  }

  lemma QuoteMeans(text: string)
    ensures Quote(text) == "'" + (Doubled(text) + "'")
  {}

  lemma NextTokenText(input: string, pos: nat)
    requires pos <= |input| && Next(input, pos).Ok?
    ensures var t := Next(input, pos).value;
      if t.kind == StringToken then t.lexeme == Quote(t.value) else t.value == t.lexeme
  {
    hide StringRest, NumberEnd, WordEnd, Quote;
    var t := Next(input, pos).value;
    var start := SkipWhitespace(input, pos);
    if start < |input| && !IsIdentifierStart(input[start]) && input[start] == '\'' {
      StringRestDoubles(input, start + 1);
      assert input[start..t.end] == input[start..start + 1] + input[start + 1..t.end];
      assert input[start..start + 1] == "'";
      QuoteMeans(t.value);
    }
  }

  lemma TilesStep(input: string, pos: nat, t: Token, rest: seq<Token>)
    requires InPlace(input, pos, t) && t.kind != EndOfInput && Tiles(input, t.end, rest)
    ensures Tiles(input, pos, [t] + rest)
  {
    hide InPlace;
    var tokens := [t] + rest;
    forall k | 0 <= k < |tokens|
      ensures InPlace(input, GapStart(pos, tokens, k), tokens[k])
      ensures tokens[k].kind == EndOfInput <==> k == |tokens| - 1
    {
      if k > 0 {
        assert rest[k - 1] == tokens[k] && GapStart(t.end, rest, k - 1) == GapStart(pos, tokens, k);
      }
    }
  }

  /** Lexing tiles the input. */
  lemma {:induction false} LexTiles(input: string, pos: nat, count: nat, limits: Limits)
    requires pos <= |input| && LexFrom(input, pos, count, limits).Ok?
    ensures Tiles(input, pos, LexFrom(input, pos, count, limits).value)
    decreases |input| - pos
  {
    hide Next;
    NextTokenText(input, pos);
    var t := Next(input, pos).value;
    if t.kind != EndOfInput {
      LexTiles(input, t.end, count + 1, limits);
      TilesStep(input, pos, t, LexFrom(input, t.end, count + 1, limits).value);
    } else {
      assert LexFrom(input, pos, count, limits).value == [t];
    }
  }

  // ---- limits ----

  predicate TokensFit(tokens: seq<Token>, count: nat, limits: Limits) {
    count + |tokens| <= limits.maxTokens + 1 &&
    forall k :: 0 <= k < |tokens| ==> !LiteralTooLong(tokens[k], limits)
  }

  /** Lexing depends on the limits only through what they admit: under any other
      limits the same tokens come out exactly when they fit those. */
  lemma {:induction false} LexUnderOtherLimits(input: string, pos: nat, count: nat, limits: Limits, other: Limits)
    requires pos <= |input| && LexFrom(input, pos, count, limits).Ok? && count <= other.maxTokens
    ensures var tokens := LexFrom(input, pos, count, limits).value;
      LexFrom(input, pos, count, other) == if TokensFit(tokens, count, other) then Ok(tokens) else Err(LimitExceeded)
    decreases |input| - pos
  {
    hide Next, LiteralTooLong;
    var t := Next(input, pos).value;
    var tokens := LexFrom(input, pos, count, limits).value;
    if t.kind == EndOfInput {
      assert tokens == [t];
      assert tokens[0] == t;
    } else {
      var rest := LexFrom(input, t.end, count + 1, limits).value;
      assert tokens == [t] + rest;
      TokensFitStep(t, rest, count, other);
      if count + 1 <= other.maxTokens {
        LexUnderOtherLimits(input, t.end, count + 1, limits, other);
      } else {
        LexNonEmpty(input, t.end, count + 1, limits);
      }
    }
  }

  lemma TokensFitStep(t: Token, rest: seq<Token>, count: nat, limits: Limits)
    ensures TokensFit([t] + rest, count, limits) <==> !LiteralTooLong(t, limits) && TokensFit(rest, count + 1, limits)
  {
    hide LiteralTooLong;
    var tokens := [t] + rest;
    assert tokens[0] == t;
    assert forall k :: 0 <= k < |rest| ==> rest[k] == tokens[k + 1];
    assert forall k :: 0 < k < |tokens| ==> tokens[k] == rest[k - 1];
  }

  lemma LexNonEmpty(input: string, pos: nat, count: nat, limits: Limits)
    requires pos <= |input| && LexFrom(input, pos, count, limits).Ok?
    ensures LexFrom(input, pos, count, limits).value != []
  {}
}
