/** Every filter the parser accepts is a tree the printer can express, so printing
    brings any accepted text to a normal form with the same meaning. */
module NormalForm {
  import opened Common
  import opened Strings
  import opened Ast
  import opened Lexer
  import opened Numerals
  import opened Grammar
  import opened ParseLimits
  import opened ParsedTree
  import opened Rendering
  import opened Printer
  import opened RoundTrip

  // ---- scanned literals ----

  lemma {:induction false} DigitsEndCut(input: string, start: nat, pos: nat, end: nat)
    requires start <= pos <= end <= |input| && DigitsEnd(input, pos) <= end
    ensures DigitsEnd(input[start..end], pos - start) == DigitsEnd(input, pos) - start
    decreases |input| - pos
  {
    if pos < end && IsDigit(input[pos]) {
      DigitsEndCut(input, start, pos + 1, end);
    }
  }

  lemma IntegerEndCut(input: string, start: nat, end: nat)
    requires start < |input| && (input[start] == '-' || IsDigit(input[start]))
    requires IntegerEnd(input, start).Ok? && IntegerEnd(input, start).value <= end <= |input|
    ensures input[start..end] != "" && input[start..end][0] == input[start]
    ensures IntegerEnd(input[start..end], 0) == Ok(IntegerEnd(input, start).value - start)
  {
    var text := input[start..end];
    var pos := if input[start] == '-' then start + 1 else start;
    assert text[0] == input[start] && text[pos - start] == input[pos];
    if input[pos] != '0' {
      DigitsEndCut(input, start, pos, end);
    }
  }

  lemma FractionEndCut(input: string, start: nat, pos: nat, end: nat)
    requires start <= pos <= end <= |input| && FractionEnd(input, pos).Ok? && FractionEnd(input, pos).value <= end
    ensures FractionEnd(input[start..end], pos - start) == Ok(FractionEnd(input, pos).value - start)
  {
    if pos < |input| && input[pos] == '.' {
      DigitsEndCut(input, start, pos + 1, end);
    }
  }

  lemma ExponentEndCut(input: string, start: nat, pos: nat, end: nat)
    requires start <= pos <= end <= |input| && ExponentEnd(input, pos).Ok? && ExponentEnd(input, pos).value <= end
    ensures ExponentEnd(input[start..end], pos - start) == Ok(ExponentEnd(input, pos).value - start)
  {
    if pos < |input| && (input[pos] == 'e' || input[pos] == 'E') {
      var digits := if pos + 1 < |input| && (input[pos + 1] == '+' || input[pos + 1] == '-') then pos + 2 else pos + 1;
      DigitsEndCut(input, start, digits, end);
    }
  }

  lemma ScannedNumber(input: string, start: nat)
    requires start < |input| && (input[start] == '-' || IsDigit(input[start])) && NumberEnd(input, start).Ok?
    ensures IsNumber(input[start..NumberEnd(input, start).value])
  {
    hide IntegerEnd, FractionEnd, ExponentEnd;
    var integer := IntegerEnd(input, start).value;
    var fraction := FractionEnd(input, integer).value;
    var end := NumberEnd(input, start).value;
    IntegerEndCut(input, start, end);
    FractionEndCut(input, start, integer, end);
    ExponentEndCut(input, start, fraction, end);
    NumberExactly(input[start..end]);
  }

  lemma {:induction false} ScannedText(input: string, pos: nat)
    requires pos <= |input| && StringRest(input, pos).Ok?
    ensures Quotable(StringRest(input, pos).value.1)
    decreases |input| - pos
  {
    hide StringPiece, Quotable;
    if ClosingQuote(input, pos) {
      NothingIsQuotable();
    } else {
      var (next, part) := StringPiece(input, pos).value;
      ScannedText(input, next);
      PieceIsQuotable(input, pos, StringRest(input, next).value.1);
    }
  }

  lemma NothingIsQuotable()
    ensures Quotable("")
  {}

  lemma PieceIsQuotable(input: string, pos: nat, rest: string)
    requires pos < |input| && !ClosingQuote(input, pos) && StringPiece(input, pos).Some? && Quotable(rest)
    ensures Quotable(StringPiece(input, pos).value.1 + rest)
  {
    hide RuneSize;
    var (next, part) := StringPiece(input, pos).value;
    var text := part + rest;
    if input[pos] < 0x80 as char {
      assert text[1..] == rest;
    } else {
      var size := RuneSize(input, pos);
      assert part == input[pos..pos + size];
      assert input == input[..pos] + (part + input[pos + size..]);
      RuneInPlace(input, pos, rest);
      assert text[size..] == rest;
    }
  }

  lemma RuneInPlace(input: string, pos: nat, rest: string)
    requires pos < |input| && input[pos] >= 0x80 as char && RuneSize(input, pos) > 1
    ensures var size := RuneSize(input, pos); var text := input[pos..pos + size] + rest;
      text[0] == input[pos] && RuneSize(text, 0) == size
  {
    var size := RuneSize(input, pos);
    var text := input[pos..pos + size] + rest;
    assert forall i :: 0 <= i < size ==> text[i] == input[pos + i];
    assert forall i: nat, low, high :: i < size && Continuation(input, pos + i, low, high) ==>
      Continuation(text, i, low, high);
  }

  lemma ScannedLiteral(input: string, pos: nat)
    requires pos <= |input| && Next(input, pos).Ok?
    ensures var l := LiteralOf(Next(input, pos).value); l.Some? ==> PrintableLiteral(l.value)
  {
    hide StringRest, NumberEnd, Quotable, IsNumber;
    var start := SkipWhitespace(input, pos);
    NextTokenText(input, pos);
    if start < |input| && !IsIdentifierStart(input[start]) {
      if input[start] == '\'' {
        ScannedText(input, start + 1);
      } else if input[start] == '-' || IsDigit(input[start]) {
        ScannedNumber(input, start);
      }
    }
  }

  ghost predicate LiteralsPrintable(tokens: seq<Token>) {
    forall k :: 0 <= k < |tokens| ==> (LiteralOf(tokens[k]).Some? ==> PrintableLiteral(LiteralOf(tokens[k]).value))
  }

  lemma {:induction false} LexedLiterals(input: string, pos: nat, count: nat, limits: Limits)
    requires pos <= |input| && LexFrom(input, pos, count, limits).Ok?
    ensures LiteralsPrintable(LexFrom(input, pos, count, limits).value)
    decreases |input| - pos
  {
    hide Next, LiteralOf, PrintableLiteral, LiteralTooLong;
    ScannedLiteral(input, pos);
    var t := Next(input, pos).value;
    if t.kind != EndOfInput {
      LexedLiterals(input, t.end, count + 1, limits);
    }
  }

  lemma {:induction false} TokenLiteralsPrintable(tokens: seq<Token>, from: nat)
    requires from <= |tokens| && LiteralsPrintable(tokens)
    ensures forall l :: l in TokenLiterals(tokens, from, |tokens|) ==> PrintableLiteral(l)
    decreases |tokens| - from
  {
    hide LiteralOf, PrintableLiteral;
    if from < |tokens| {
      TokenLiteralsPrintable(tokens, from + 1);
    }
  }

  // ---- parsed trees ----

  lemma {:induction false} PrintableByLiterals(e: Expr)
    requires AsParsed(e) && forall l :: l in LiteralsOf(e) ==> PrintableLiteral(l)
    ensures Printable(e)
  {
    hide PrintableLiteral, IsWordPath;
    match e
    case Comparison(_, _, literal, literals) =>
      assert literal != NO_LITERAL ==> LiteralsOf(e)[0] == literal;
      assert forall k :: 0 <= k < |literals| ==> literals[k] in LiteralsOf(e);
    case Logical(_, left, right) =>
      PrintableByLiterals(left);
      PrintableByLiterals(right);
    case Not(operand) => PrintableByLiterals(operand);
    case Quantifier(_, _, _, body) => PrintableByLiterals(body);
  }

  /** The trees the parser can answer are among those the printer can express. */
  lemma ParsedIsPrintable(input: string, given: Limits)
    requires ParseFilter(input, given).Ok?
    ensures Printable(ParseFilter(input, given).value)
  {
    hide Chain, LexFrom, LiteralsOf, AsParsed, PrintableLiteral, TokenLiterals, Printable;
    var limits := WithDefaults(given);
    ParsedLiterals(input, given);
    LexedLiterals(input, 0, 0, limits);
    TokenLiteralsPrintable(Lex(input, limits).value, 0);
    PrintableByLiterals(ParseFilter(input, given).value);
  }

  /** Printing an accepted filter and parsing again gives the same tree, as long as the
      new text itself fits. */
  lemma Reprint(input: string, style: Style, given: Limits)
    requires ParseFilter(input, given).Ok? && TextFits(ParseFilter(input, given).value, style, WithDefaults(given))
    ensures ParseFilter(PrintText(ParseFilter(input, given).value, style), given) == ParseFilter(input, given)
  {
    hide ParseFilter, TextFits, Printable, PrintText;
    ParsedIsPrintable(input, given);
    ParseUnderOtherLimits(input, given, given);
    ParsePrint(ParseFilter(input, given).value, style, given);
  }
}
