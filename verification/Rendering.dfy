/** Filter text from pieces, in the spacing of the parser tests' formatter, and the
    lexer's inverse: rendering pieces and lexing the text gives the pieces back. */
module Rendering {
  import opened Common
  import opened Strings
  import opened Ast
  import opened Lexer
  import opened Numerals

  datatype Piece = Piece(kind: TokenKind, lexeme: string, value: string)

  predicate IsPunctuation(kind: TokenKind) { kind in {LeftParen, RightParen, Comma, Slash, Colon} }

  // Whether a space separates two neighbours; EndOfInput stands for the start of the text.
  predicate Gap(before: TokenKind, after: TokenKind) {
    && before !in {EndOfInput, LeftParen, Slash, Comma}
    && after !in {RightParen, Comma, Slash, Colon}
    && !(after == LeftParen && before in {AnyToken, AllToken})
  }

  function Space(before: TokenKind, after: TokenKind): string { if Gap(before, after) then " " else "" }

  function Render(before: TokenKind, pieces: seq<Piece>): string
    decreases |pieces|
  {
    if pieces == [] then "" else Space(before, pieces[0].kind) + pieces[0].lexeme + Render(pieces[0].kind, pieces[1..])
  }

  /** Text without control characters and of well-formed UTF-8. */
  predicate Quotable(text: string) {
    if text == "" then true
    else if text[0] < 0x80 as char then ' ' <= text[0] <= '~' && Quotable(text[1..])
    else RuneSize(text, 0) > 1 && Quotable(text[RuneSize(text, 0)..])
  }

  predicate IsWordKind(kind: TokenKind) {
    !IsPunctuation(kind) && kind !in {EndOfInput, StringToken, NumberToken}
  }

  // A piece that is one token's text.
  ghost predicate Lexable(p: Piece) {
    if p.kind == StringToken then p.lexeme == Quote(p.value) && Quotable(p.value)
    else
      p.value == p.lexeme &&
      if p.kind == NumberToken then IsNumber(p.lexeme)
      else if IsPunctuation(p.kind) then |p.lexeme| == 1 && PunctuationKind(p.lexeme[0]) == Some(p.kind)
      else IsWordKind(p.kind) && IsValidIdentifier(p.lexeme) && WordKind(p.lexeme) == p.kind
  }

  ghost predicate AllLexable(pieces: seq<Piece>) {
    forall k :: 0 <= k < |pieces| ==> Lexable(pieces[k])
  }

  function TokenOf(p: Piece, start: nat): Token { Token(p.kind, p.lexeme, p.value, start, start + |p.lexeme|) }

  // The tokens of rendered pieces, the first of them preceded by `before` ending at pos.
  function TokensOf(before: TokenKind, pieces: seq<Piece>, pos: nat): seq<Token>
    decreases |pieces|
  {
    if pieces == [] then [Token(EndOfInput, "", "", pos, pos)]
    else
      var t := TokenOf(pieces[0], pos + |Space(before, pieces[0].kind)|);
      [t] + TokensOf(pieces[0].kind, pieces[1..], t.end)
  }

  // ---- one token ----

  // What may follow a token without changing it.
  predicate Ends(tail: string) { tail == "" || IsWhitespace(tail[0]) || PunctuationKind(tail[0]).Some? }

  /** Any run of spaces, tabs and line ends. */
  predicate Blank(text: string) {
    forall i :: 0 <= i < |text| ==> text[i] == ' ' || text[i] == '\t' || text[i] == '\r' || text[i] == '\n'
  }

  lemma {:induction false} BlankIsSkipped(input: string, pos: nat, end: nat)
    requires pos <= end <= |input| && (forall i :: pos <= i < end ==> IsWhitespace(input[i]))
    requires end < |input| ==> !IsWhitespace(input[end])
    ensures SkipWhitespace(input, pos) == end
    decreases end - pos
  {
    if pos < end {
      BlankIsSkipped(input, pos + 1, end);
    }
  }

  lemma {:induction false} DigitsEndShift(text: string, pos: nat, front: string, tail: string)
    requires pos <= |text| && Ends(tail)
    ensures DigitsEnd(front + text + tail, |front| + pos) == |front| + DigitsEnd(text, pos)
    decreases |text| - pos
  {
    var input := front + text + tail;
    if pos < |text| {
      assert input[|front| + pos] == text[pos];
      DigitsEndShift(text, pos + 1, front, tail);
    } else if tail != "" {
      assert input[|front| + pos] == tail[0];
    }
  }

  lemma NumberEndShift(text: string, front: string, tail: string)
    requires IsNumber(text) && Ends(tail)
    ensures var input := front + text + tail;
      input[|front|] == text[0] && NumberEnd(input, |front|) == Ok(|front| + |text|)
  {
    hide IntegerEnd, FractionEnd, ExponentEnd;
    NumberExactly(text);
    hide IsNumber;
    var input := front + text + tail;
    assert input[|front|] == text[0];
    var integer := IntegerEnd(text, 0).value;
    var fraction := FractionEnd(text, integer).value;
    IntegerEndShift(text, front, tail);
    FractionEndShift(text, integer, front, tail);
    ExponentEndShift(text, fraction, front, tail);
    if tail != "" {
      assert input[|front| + |text|] == tail[0];
    }
  }

  lemma IntegerEndShift(text: string, front: string, tail: string)
    requires text != "" && (text[0] == '-' || IsDigit(text[0])) && IntegerEnd(text, 0).Ok? && Ends(tail)
    ensures var input := front + text + tail;
      input[|front|] == text[0] && IntegerEnd(input, |front|) == Ok(|front| + IntegerEnd(text, 0).value)
  {
    var input := front + text + tail;
    var pos := if text[0] == '-' then 1 else 0;
    assert forall i :: 0 <= i < |text| ==> input[|front| + i] == text[i];
    assert tail != "" ==> input[|front| + |text|] == tail[0];
    DigitsEndShift(text, pos, front, tail);
  }

  lemma FractionEndShift(text: string, pos: nat, front: string, tail: string)
    requires pos <= |text| && FractionEnd(text, pos).Ok? && Ends(tail)
    ensures FractionEnd(front + text + tail, |front| + pos) == Ok(|front| + FractionEnd(text, pos).value)
  {
    var input := front + text + tail;
    assert forall i :: 0 <= i < |text| ==> input[|front| + i] == text[i];
    assert tail != "" ==> input[|front| + |text|] == tail[0];
    if pos + 1 <= |text| {
      DigitsEndShift(text, pos + 1, front, tail);
    }
  }

  lemma ExponentEndShift(text: string, pos: nat, front: string, tail: string)
    requires pos <= |text| && ExponentEnd(text, pos).Ok? && Ends(tail)
    ensures ExponentEnd(front + text + tail, |front| + pos) == Ok(|front| + ExponentEnd(text, pos).value)
  {
    var input := front + text + tail;
    assert forall i :: 0 <= i < |text| ==> input[|front| + i] == text[i];
    assert tail != "" ==> input[|front| + |text|] == tail[0];
    if pos + 1 <= |text| {
      DigitsEndShift(text, pos + 1, front, tail);
    }
    if pos + 2 <= |text| {
      DigitsEndShift(text, pos + 2, front, tail);
    }
  }

  lemma RuneSizeShift(text: string, front: string, tail: string)
    requires text != "" && text[0] >= 0x80 as char && RuneSize(text, 0) > 1
    ensures var input := front + text + tail; input[|front|] == text[0] && RuneSize(input, |front|) == RuneSize(text, 0)
  {
    var input := front + text + tail;
    assert forall i :: 0 <= i < |text| ==> input[|front| + i] == text[i];
    assert forall i: nat, low, high :: Continuation(text, i, low, high) ==> Continuation(input, |front| + i, low, high);
  }

  /** Every control-free UTF-8 text survives quoting and scanning. */
  lemma {:induction false} QuotedIsScanned(text: string, front: string, tail: string)
    requires Quotable(text) && (tail != "" ==> tail[0] != '\'')
    ensures var input := front + Doubled(text) + "'" + tail;
      StringRest(input, |front|) == Ok((|front| + |Doubled(text)| + 1, text))
    decreases |text|
  {
    hide StringRest, RuneSize, ClosingQuote, StringPiece, Doubled, Quotable;
    var input := front + Doubled(text) + "'" + tail;
    DoubledApostrophe("");
    if text == "" {
      EndOfQuoted(front, tail);
      assert input == front + "'" + tail;
    } else {
      QuotableHead(text);
      var size := if text[0] < 0x80 as char then 1 else RuneSize(text, 0);
      var head, rest := text[..size], text[size..];
      assert text == head + rest;
      DoubledAppend(head, rest);
      var after := Doubled(rest) + "'" + tail;
      assert front + Doubled(head) + after == input;
      assert (front + Doubled(head)) + Doubled(rest) + "'" + tail == input;
      QuotedIsScanned(rest, front + Doubled(head), tail);
      PieceOfQuoted(text, size, front, after);
      StringRestSteps(input, |front|, "");
      WithPrefixOf(head, rest, |front| + |Doubled(text)| + 1, StringRest(input, |front|));
    }
  }

  lemma WithPrefixOf(head: string, rest: string, end: nat, whole: Result<(nat, string)>)
    ensures WithPrefix("" + head, Ok((end, rest))) == Ok((end, head + rest))
    ensures WithPrefix("", whole) == whole
  {
    assert "" + head == head;
    assert whole.Ok? ==> "" + whole.value.1 == whole.value.1;
  }

  lemma EndOfQuoted(front: string, tail: string)
    requires tail != "" ==> tail[0] != '\''
    ensures StringRest(front + "'" + tail, |front|) == Ok((|front| + 1, ""))
  {
    var input := front + "'" + tail;
    assert input[|front|] == '\'' && (tail != "" ==> input[|front| + 1] == tail[0]);
    assert ClosingQuote(input, |front|);
  }

  // One character, doubled if it is an apostrophe, is one piece of the string literal.
  lemma PieceOfQuoted(text: string, size: nat, front: string, after: string)
    requires text != "" && Quotable(text) && size == (if text[0] < 0x80 as char then 1 else RuneSize(text, 0))
    requires after != ""
    ensures var head := text[..size]; var input := front + Doubled(head) + after;
      && |front| < |input| && !ClosingQuote(input, |front|)
      && StringPiece(input, |front|) == Some((|front| + |Doubled(head)|, head))
  {
    hide RuneSize, Quotable;
    var head := text[..size];
    QuotableHead(text);
    if text[0] == '\'' {
      DoubledApostrophe("");
      assert "'" + "" == "'" && "''" + "" == "''";
      assert head == "'";
      var input := front + "''" + after;
      assert input[|front|] == '\'' && input[|front| + 1] == '\'';
    } else if text[0] < 0x80 as char {
      assert head == [text[0]];
      NothingDoubled(head);
      var input := front + head + after;
      assert input[|front|] == text[0];
    } else {
      RuneHasNoQuote(text, 0);
      assert text[0..size] == head;
      NothingDoubled(head);
      RunePiece(text, front, after);
    }
  }

  lemma RunePiece(text: string, front: string, after: string)
    requires text != "" && text[0] >= 0x80 as char && RuneSize(text, 0) > 1
    ensures var head := text[..RuneSize(text, 0)]; var input := front + head + after;
      && !ClosingQuote(input, |front|) && StringPiece(input, |front|) == Some((|front| + |head|, head))
  {
    hide RuneSize;
    var head := text[..RuneSize(text, 0)];
    RunePrefix(text);
    RuneSizeShift(head, front, after);
    var input := front + head + after;
    assert input[|front|..|front| + |head|] == head;
  }

  lemma QuotableHead(text: string)
    requires text != "" && Quotable(text)
    ensures if text[0] < 0x80 as char then !IsControl(text[0]) && Quotable(text[1..])
      else RuneSize(text, 0) > 1 && Quotable(text[RuneSize(text, 0)..])
  {}

  lemma RunePrefix(text: string)
    requires text != "" && text[0] >= 0x80 as char && RuneSize(text, 0) > 1
    ensures var head := text[..RuneSize(text, 0)]; head[0] == text[0] && RuneSize(head, 0) == RuneSize(text, 0)
  {
    var head := text[..RuneSize(text, 0)];
    assert forall i :: 0 <= i < |head| ==> head[i] == text[i];
    assert forall i: nat, low, high :: i < |head| && Continuation(text, i, low, high) ==>
      Continuation(head, i, low, high);
  }

  lemma ScanStringPiece(p: Piece, lead: string, tail: string, pos: nat)
    requires p.kind == StringToken && Lexable(p) && Ends(tail)
    requires pos <= |lead| && SkipWhitespace(lead + p.lexeme + tail, pos) == |lead|
    ensures Next(lead + p.lexeme + tail, pos) == Ok(TokenOf(p, |lead|))
  {
    hide StringRest, NumberEnd, WordEnd, Quotable;
    var input := lead + p.lexeme + tail;
    assert input[|lead|..|lead| + |p.lexeme|] == p.lexeme;
    assert input[|lead|] == p.lexeme[0];
    assert input == (lead + "'") + Doubled(p.value) + "'" + tail;
    QuotedIsScanned(p.value, lead + "'", tail);
  }

  lemma ScanNumberPiece(p: Piece, lead: string, tail: string, pos: nat)
    requires p.kind == NumberToken && Lexable(p) && Ends(tail)
    requires pos <= |lead| && SkipWhitespace(lead + p.lexeme + tail, pos) == |lead|
    ensures Next(lead + p.lexeme + tail, pos) == Ok(TokenOf(p, |lead|))
  {
    hide StringRest, NumberEnd, WordEnd, Quotable, IsNumber;
    NumberExactly(p.lexeme);
    var input := lead + p.lexeme + tail;
    assert input[|lead|..|lead| + |p.lexeme|] == p.lexeme;
    NumberEndShift(p.lexeme, lead, tail);
  }

  lemma ScanWordPiece(p: Piece, lead: string, tail: string, pos: nat)
    requires IsWordKind(p.kind) && Lexable(p) && Ends(tail)
    requires pos <= |lead| && SkipWhitespace(lead + p.lexeme + tail, pos) == |lead|
    ensures Next(lead + p.lexeme + tail, pos) == Ok(TokenOf(p, |lead|))
  {
    hide StringRest, NumberEnd, WordEnd, Quotable, WordKind;
    var input := lead + p.lexeme + tail;
    var end := |lead| + |p.lexeme|;
    assert input[|lead|..end] == p.lexeme;
    assert forall i :: |lead| <= i < end ==> input[i] == p.lexeme[i - |lead|];
    assert tail != "" ==> input[end] == tail[0];
    WordEndAt(input, |lead| + 1, end);
  }

  lemma ScanPunctuationPiece(p: Piece, lead: string, tail: string, pos: nat)
    requires IsPunctuation(p.kind) && Lexable(p)
    requires pos <= |lead| && SkipWhitespace(lead + p.lexeme + tail, pos) == |lead|
    ensures Next(lead + p.lexeme + tail, pos) == Ok(TokenOf(p, |lead|))
  {
    hide StringRest, NumberEnd, WordEnd, Quotable, WordKind;
    var input := lead + p.lexeme + tail;
    assert input[|lead|] == p.lexeme[0];
  }

  /** One rendered piece is scanned as one token. */
  lemma NextPiece(p: Piece, front: string, space: string, tail: string)
    requires Lexable(p) && Blank(space)
    requires IsPunctuation(p.kind) || Ends(tail)
    ensures Next(front + space + p.lexeme + tail, |front|) == Ok(TokenOf(p, |front| + |space|))
  {
    hide Next, Quotable, TokenOf;
    var lead := front + space;
    var input := lead + p.lexeme + tail;
    FirstByte(p);
    assert input[|lead|] == p.lexeme[0];
    assert forall i :: |front| <= i < |lead| ==> input[i] == space[i - |front|];
    BlankIsSkipped(input, |front|, |lead|);
    if p.kind == StringToken {
      ScanStringPiece(p, lead, tail, |front|);
    } else if p.kind == NumberToken {
      ScanNumberPiece(p, lead, tail, |front|);
    } else if IsPunctuation(p.kind) {
      ScanPunctuationPiece(p, lead, tail, |front|);
    } else {
      ScanWordPiece(p, lead, tail, |front|);
    }
  }

  lemma FirstByte(p: Piece)
    requires Lexable(p)
    ensures p.lexeme != "" && !IsWhitespace(p.lexeme[0])
    ensures p.kind == StringToken ==> p.lexeme[0] == '\''
  {
    hide IsNumber, NumberEnd;
    if p.kind == NumberToken {
      NumberExactly(p.lexeme);
    }
  }

  // ---- all tokens ----

  lemma RenderEnds(before: TokenKind, pieces: seq<Piece>)
    requires AllLexable(pieces) && !IsPunctuation(before) && before != EndOfInput
    ensures Ends(Render(before, pieces))
  {
    if pieces != [] {
      assert Lexable(pieces[0]);
      FirstByte(pieces[0]);
      var text := Render(before, pieces);
      if Gap(before, pieces[0].kind) {
        assert text[0] == ' ';
      } else {
        assert IsPunctuation(pieces[0].kind);
        assert text[0] == pieces[0].lexeme[0];
      }
    }
  }

  ghost predicate LexemesFit(pieces: seq<Piece>, limits: Limits) {
    forall k :: 0 <= k < |pieces| ==>
      (pieces[k].kind == StringToken || pieces[k].kind == NumberToken ==> |pieces[k].lexeme| <= limits.maxLiteralBytes)
  }

  /** Lexing what was rendered gives the rendered pieces. */
  lemma {:induction false} LexRendered(before: TokenKind, pieces: seq<Piece>, front: string, count: nat, limits: Limits)
    requires AllLexable(pieces) && LexemesFit(pieces, limits) && count + |pieces| <= limits.maxTokens
    ensures LexFrom(front + Render(before, pieces), |front|, count, limits) == Ok(TokensOf(before, pieces, |front|))
    decreases |pieces|
  {
    hide Next, Lexable, Space, IsPunctuation, LexFrom, AllLexable, LexemesFit, Render, TokensOf, TokenOf, Ends;
    if pieces == [] {
      assert front + Render(before, []) == front by { RenderNothing(before); }
      LexAtEnd(front, count, limits);
      RenderNothing(before);
    } else {
      var p, rest := pieces[0], pieces[1..];
      var space, tail := Space(before, p.kind), Render(p.kind, rest);
      FirstPiece(pieces, limits);
      if !IsPunctuation(p.kind) {
        RenderEnds(p.kind, rest);
      }
      var consumed := front + space + p.lexeme;
      RenderStep(before, pieces, front);
      SpaceIsSpace(before, p.kind);
      NextPiece(p, front, space, tail);
      LexRendered(p.kind, rest, consumed, count + 1, limits);
      LexOneMore(consumed + tail, |front|, count, limits, p, |front| + |space|);
    }
  }

  lemma RenderNothing(before: TokenKind)
    ensures Render(before, []) == ""
      && forall pos: nat :: TokensOf(before, [], pos) == [Token(EndOfInput, "", "", pos, pos)]
  {}

  lemma RenderStep(before: TokenKind, pieces: seq<Piece>, front: string)
    requires pieces != []
    ensures var p := pieces[0]; var space := Space(before, p.kind); var consumed := front + space + p.lexeme;
      && front + Render(before, pieces) == consumed + Render(p.kind, pieces[1..])
      && TokenOf(p, |front| + |space|).end == |consumed|
      && TokensOf(before, pieces, |front|) ==
           [TokenOf(p, |front| + |space|)] + TokensOf(p.kind, pieces[1..], |consumed|)
  {
    hide Space;
    var p := pieces[0];
    Regroup(front, Space(before, p.kind), p.lexeme, Render(p.kind, pieces[1..]));
  }

  lemma Regroup(a: string, b: string, c: string, d: string)
    ensures a + (b + c + d) == (a + b + c) + d
  {}

  lemma SpaceIsSpace(before: TokenKind, after: TokenKind)
    ensures Space(before, after) == "" || Space(before, after) == " "
    ensures Blank(Space(before, after))
  {}

  lemma FirstPiece(pieces: seq<Piece>, limits: Limits)
    requires pieces != [] && AllLexable(pieces) && LexemesFit(pieces, limits)
    ensures Lexable(pieces[0]) && pieces[0].kind != EndOfInput
    ensures pieces[0].kind == StringToken || pieces[0].kind == NumberToken ==>
      |pieces[0].lexeme| <= limits.maxLiteralBytes
    ensures AllLexable(pieces[1..]) && LexemesFit(pieces[1..], limits)
  {}

  lemma LexAtEnd(input: string, count: nat, limits: Limits)
    ensures LexFrom(input, |input|, count, limits) == Ok([Token(EndOfInput, "", "", |input|, |input|)])
  {}

  lemma LexOneMore(input: string, pos: nat, count: nat, limits: Limits, p: Piece, start: nat)
    requires pos <= |input| && Next(input, pos) == Ok(TokenOf(p, start)) && p.kind != EndOfInput
    requires count < limits.maxTokens
    requires p.kind == StringToken || p.kind == NumberToken ==> |p.lexeme| <= limits.maxLiteralBytes
    ensures var rest := LexFrom(input, TokenOf(p, start).end, count + 1, limits);
      LexFrom(input, pos, count, limits) == if rest.Ok? then Ok([TokenOf(p, start)] + rest.value) else rest
  {
    hide Next;
  }
}
