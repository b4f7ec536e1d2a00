/** The same pieces in any layout: whatever whitespace stands before them, they are lexed
    to the same tokens and parsed to the same tree. */
module Layouts {
  import opened Common
  import opened Strings
  import opened Ast
  import opened Lexer
  import opened Grammar
  import opened ParseLimits
  import opened Rendering
  import opened Printer
  import opened RoundTrip
  import opened Respacing
  import opened Spacing

  // Text with whitespace before each piece and at the end.
  function Lay(gaps: seq<string>, pieces: seq<Piece>, last: string): string
    requires |gaps| == |pieces|
  {
    if pieces == [] then last else gaps[0] + pieces[0].lexeme + Lay(gaps[1..], pieces[1..], last)
  }

  function LaidTokens(gaps: seq<string>, pieces: seq<Piece>, last: string, pos: nat): seq<Token>
    requires |gaps| == |pieces|
    decreases |pieces|
  {
    if pieces == [] then [Token(EndOfInput, "", "", pos + |last|, pos + |last|)]
    else
      var t := TokenOf(pieces[0], pos + |gaps[0]|);
      [t] + LaidTokens(gaps[1..], pieces[1..], last, t.end)
  }

  // Two words, numbers or strings need whitespace between them.
  predicate Apart(before: TokenKind, after: TokenKind) {
    before != EndOfInput && !IsPunctuation(before) && !IsPunctuation(after)
  }

  /** Runs of spaces, tabs and line ends before the pieces and behind them, where two pieces
      would grow together at least one. */
  ghost predicate Layout(before: TokenKind, gaps: seq<string>, pieces: seq<Piece>, last: string) {
    && |gaps| == |pieces| && Blank(last) && (forall k :: 0 <= k < |gaps| ==> Blank(gaps[k]))
    && (pieces != [] && Apart(before, pieces[0].kind) ==> gaps[0] != "")
    && forall k :: 0 < k < |gaps| && Apart(pieces[k - 1].kind, pieces[k].kind) ==> gaps[k] != ""
  }

  lemma LayoutRest(before: TokenKind, gaps: seq<string>, pieces: seq<Piece>, last: string)
    requires Layout(before, gaps, pieces, last) && pieces != []
    ensures |gaps| == |pieces| && Layout(pieces[0].kind, gaps[1..], pieces[1..], last) && Blank(gaps[0])
  {
    hide Blank;
    var rest, more := gaps[1..], pieces[1..];
    assert forall k :: 0 <= k < |rest| ==> rest[k] == gaps[k + 1] && more[k] == pieces[k + 1];
  }

  lemma LayEnds(before: TokenKind, gaps: seq<string>, pieces: seq<Piece>, last: string)
    requires Layout(before, gaps, pieces, last) && AllLexable(pieces) && before != EndOfInput && !IsPunctuation(before)
    ensures Ends(Lay(gaps, pieces, last))
  {
    if pieces != [] {
      assert Lexable(pieces[0]);
      FirstByte(pieces[0]);
      var text := Lay(gaps, pieces, last);
      if gaps[0] != "" {
        assert text[0] == gaps[0][0];
      } else {
        assert IsPunctuation(pieces[0].kind);
        assert text[0] == pieces[0].lexeme[0];
      }
    }
  }

  lemma LexLastGap(front: string, last: string, count: nat, limits: Limits)
    requires Blank(last)
    ensures var end := |front + last|;
      LexFrom(front + last, |front|, count, limits) == Ok([Token(EndOfInput, "", "", end, end)])
  {
    var input := front + last;
    assert forall i :: |front| <= i < |input| ==> input[i] == last[i - |front|];
    BlankIsSkipped(input, |front|, |input|);
  }

  lemma LaidStep(front: string, gaps: seq<string>, pieces: seq<Piece>, last: string)
    requires |gaps| == |pieces| && pieces != []
    ensures var consumed := front + gaps[0] + pieces[0].lexeme;
      && front + Lay(gaps, pieces, last) == consumed + Lay(gaps[1..], pieces[1..], last)
      && LaidTokens(gaps, pieces, last, |front|) ==
         [TokenOf(pieces[0], |front| + |gaps[0]|)] + LaidTokens(gaps[1..], pieces[1..], last, |consumed|)
  {
    var consumed := front + gaps[0] + pieces[0].lexeme;
    assert front + Lay(gaps, pieces, last) == consumed + Lay(gaps[1..], pieces[1..], last);
  }

  lemma LaidNothing(gaps: seq<string>, last: string, pos: nat)
    requires gaps == []
    ensures Lay(gaps, [], last) == last
    ensures LaidTokens(gaps, [], last, pos) == [Token(EndOfInput, "", "", pos + |last|, pos + |last|)]
  {}

  /** Lexing a layout gives its pieces. */
  lemma {:induction false} LexLaid(before: TokenKind, gaps: seq<string>, pieces: seq<Piece>, last: string,
                                   front: string, count: nat, limits: Limits)
    requires Layout(before, gaps, pieces, last) && AllLexable(pieces) && LexemesFit(pieces, limits)
    requires count + |pieces| <= limits.maxTokens
    ensures LexFrom(front + Lay(gaps, pieces, last), |front|, count, limits) ==
            Ok(LaidTokens(gaps, pieces, last, |front|))
    decreases |pieces|
  {
    hide Next, Lexable, IsPunctuation, LexFrom, AllLexable, LexemesFit, Layout, Blank, Lay, LaidTokens, TokenOf;
    LastIsBlank(before, gaps, pieces, last);
    if pieces == [] {
      LaidNothing(gaps, last, |front|);
      LexLastGap(front, last, count, limits);
    } else {
      var p, rest := pieces[0], pieces[1..];
      LayoutRest(before, gaps, pieces, last);
      var tail := Lay(gaps[1..], rest, last);
      FirstPiece(pieces, limits);
      if !IsPunctuation(p.kind) {
        LayEnds(p.kind, gaps[1..], rest, last);
      }
      var consumed := front + gaps[0] + p.lexeme;
      LaidStep(front, gaps, pieces, last);
      NextPiece(p, front, gaps[0], tail);
      LexLaid(p.kind, gaps[1..], rest, last, consumed, count + 1, limits);
      assert TokenOf(p, |front| + |gaps[0]|).end == |consumed| by { EndOf(p, |front| + |gaps[0]|); }
      LexOneMore(front + Lay(gaps, pieces, last), |front|, count, limits, p, |front| + |gaps[0]|);
    }
  }

  lemma EndOf(p: Piece, start: nat)
    ensures TokenOf(p, start).end == start + |p.lexeme|
  {}

  lemma LastIsBlank(before: TokenKind, gaps: seq<string>, pieces: seq<Piece>, last: string)
    requires Layout(before, gaps, pieces, last)
    ensures Blank(last) && |gaps| == |pieces|
  {}

  // ---- where the tokens stand ----

  // The first token of a layout, and the gap before it.
  lemma LaidFirst(front: string, gaps: seq<string>, pieces: seq<Piece>, last: string)
    requires |gaps| == |pieces|
    ensures var tokens := LaidTokens(gaps, pieces, last, |front|); var input := front + Lay(gaps, pieces, last);
      && tokens != [] && |front| <= tokens[0].start <= |input|
      && if pieces == []
         then tokens[0].kind == EndOfInput && tokens[0].lexeme == "" && tokens[0].value == "" && |tokens| == 1
         else input[|front|..tokens[0].start] == gaps[0]
  {
    if pieces != [] {
      var after := pieces[0].lexeme + Lay(gaps[1..], pieces[1..], last);
      assert front + Lay(gaps, pieces, last) == front + (gaps[0] + after);
    }
  }

  lemma {:induction false} LaidAt(front: string, gaps: seq<string>, pieces: seq<Piece>, last: string, k: nat)
    requires |gaps| == |pieces| && k < |pieces|
    ensures var tokens := LaidTokens(gaps, pieces, last, |front|); var input := front + Lay(gaps, pieces, last);
      && |tokens| == |pieces| + 1 && PieceOf(tokens[k]) == pieces[k] && tokens[|pieces|].kind == EndOfInput
      && tokens[|pieces|].lexeme == "" && tokens[|pieces|].value == ""
      && 0 <= tokens[k].end <= tokens[k + 1].start <= |input|
      && (k + 1 < |pieces| ==> input[tokens[k].end..tokens[k + 1].start] == gaps[k + 1])
    decreases |pieces|
  {
    hide Lay, LaidTokens;
    var rest, more := gaps[1..], pieces[1..];
    var consumed := front + gaps[0] + pieces[0].lexeme;
    LaidStep(front, gaps, pieces, last);
    LaidFirst(consumed, rest, more, last);
    if more != [] {
      LaidAt(consumed, rest, more, last, if k > 0 then k - 1 else 0);
    }
  }

  /** The places where spacing counts are blank in both layouts or in neither. */
  ghost predicate SamePlaces(gaps: seq<string>, others: seq<string>, pieces: seq<Piece>)
    requires |gaps| == |others| == |pieces|
  {
    forall k :: 0 < k < |pieces| && !FreeGap(pieces[k - 1].kind, pieces[k].kind) ==>
      (gaps[k] == "" <==> others[k] == "")
  }

  function LaidSource(gaps: seq<string>, pieces: seq<Piece>, last: string, limits: Limits): RawSource
    requires |gaps| == |pieces|
  {
    RawSource(Lay(gaps, pieces, last), LaidTokens(gaps, pieces, last, 0), limits)
  }

  lemma LaidEnds(gaps: seq<string>, pieces: seq<Piece>, last: string, limits: Limits)
    requires |gaps| == |pieces|
    ensures EndsWithEof(LaidSource(gaps, pieces, last, limits))
    ensures |LaidTokens(gaps, pieces, last, 0)| == |pieces| + 1
  {
    if pieces != [] {
      LaidAt("", gaps, pieces, last, 0);
    }
  }

  // Spacing between two pieces is the gap between them.
  lemma GapAt(gaps: seq<string>, pieces: seq<Piece>, last: string, limits: Limits, k: nat)
    requires |gaps| == |pieces| && k + 1 < |pieces| && Blank(gaps[k + 1])
    ensures EndsWithEof(LaidSource(gaps, pieces, last, limits)) && |LaidTokens(gaps, pieces, last, 0)| == |pieces| + 1
    ensures var s: Source := LaidSource(gaps, pieces, last, limits);
      && (SpacedAfter(s, k) <==> gaps[k + 1] != "") && (Touching(s.tokens[k], s.tokens[k + 1]) <==> gaps[k + 1] == "")
  {
    hide Lay, LaidTokens, Blank, RequiredSpacing, PieceOf;
    LaidEnds(gaps, pieces, last, limits);
    LaidAt("", gaps, pieces, last, k);
    var s: Source := LaidSource(gaps, pieces, last, limits);
    assert "" + s.input == s.input;
    BlankSpacing(s, s.tokens[k].end, s.tokens[k + 1].start);
  }

  lemma BlankSpacing(s: Source, start: nat, end: nat)
    requires start <= end <= |s.input| && Blank(s.input[start..end])
    ensures RequiredSpacing(s, start, end) <==> start < end
  {
    assert forall i :: start <= i < end ==> s.input[i] == s.input[start..end][i - start];
  }

  lemma LayoutsAlike(gaps: seq<string>, last: string, others: seq<string>, ending: string, pieces: seq<Piece>,
                     limits: Limits)
    requires Layout(EndOfInput, gaps, pieces, last) && Layout(EndOfInput, others, pieces, ending)
    requires SamePlaces(gaps, others, pieces)
    ensures EndsWithEof(LaidSource(gaps, pieces, last, limits))
      && EndsWithEof(LaidSource(others, pieces, ending, limits))
    ensures Alike(LaidSource(gaps, pieces, last, limits), LaidSource(others, pieces, ending, limits))
  {
    hide LaidTokens, Lay, SameToken, RequiredSpacing, FreeGap, Blank;
    LaidEnds(gaps, pieces, last, limits);
    LaidEnds(others, pieces, ending, limits);
    var s: Source, t: Source := LaidSource(gaps, pieces, last, limits), LaidSource(others, pieces, ending, limits);
    forall k | 0 <= k < |s.tokens| ensures SameToken(s.tokens[k], t.tokens[k]) {
      SameTokens(gaps, last, others, ending, pieces, k);
    }
    forall k: nat | k + 1 < |s.tokens| && !FreeGap(Kind(s, k), Kind(s, k + 1))
      ensures SpacedAfter(s, k) ==> SpacedAfter(t, k)
      ensures Touching(s.tokens[k], s.tokens[k + 1]) ==> Touching(t.tokens[k], t.tokens[k + 1])
    {
      NotAtEnd(gaps, pieces, last, limits, k);
      GapAt(gaps, pieces, last, limits, k);
      GapAt(others, pieces, ending, limits, k);
    }
  }

  lemma SameTokens(gaps: seq<string>, last: string, others: seq<string>, ending: string, pieces: seq<Piece>, k: nat)
    requires |gaps| == |others| == |pieces| && k <= |pieces|
    ensures |LaidTokens(gaps, pieces, last, 0)| == |LaidTokens(others, pieces, ending, 0)| == |pieces| + 1
    ensures SameToken(LaidTokens(gaps, pieces, last, 0)[k], LaidTokens(others, pieces, ending, 0)[k])
  {
    if pieces != [] {
      var at := if k < |pieces| then k else 0;
      LaidAt("", gaps, pieces, last, at);
      LaidAt("", others, pieces, ending, at);
    }
  }

  lemma NotAtEnd(gaps: seq<string>, pieces: seq<Piece>, last: string, limits: Limits, k: nat)
    requires |gaps| == |pieces| && k < |pieces|
    requires EndsWithEof(LaidSource(gaps, pieces, last, limits)) && |LaidTokens(gaps, pieces, last, 0)| == |pieces| + 1
    requires var s: Source := LaidSource(gaps, pieces, last, limits); !FreeGap(Kind(s, k), Kind(s, k + 1))
    ensures k + 1 < |pieces|
    ensures var s: Source := LaidSource(gaps, pieces, last, limits);
      Kind(s, k) == pieces[k].kind && Kind(s, k + 1) == pieces[k + 1].kind
  {
    LaidAt("", gaps, pieces, last, k);
    if k + 1 < |pieces| {
      LaidAt("", gaps, pieces, last, k + 1);
    }
  }

  // ---- parsing ----

  /** A text that parses to a tree parses to it in any layout that is blank in the same places. */
  lemma LayoutsParse(gaps: seq<string>, last: string, others: seq<string>, ending: string, pieces: seq<Piece>,
                     given: Limits, e: Expr)
    requires Layout(EndOfInput, gaps, pieces, last) && Layout(EndOfInput, others, pieces, ending)
    requires SamePlaces(gaps, others, pieces) && AllLexable(pieces)
    requires var limits := WithDefaults(given);
      && LexemesFit(pieces, limits) && |pieces| <= limits.maxTokens
      && |Lay(others, pieces, ending)| <= limits.maxFilterBytes
    requires ParseFilter(Lay(gaps, pieces, last), given) == Ok(e)
    ensures ParseFilter(Lay(others, pieces, ending), given) == Ok(e)
  {
    hide LaidTokens, Lay, Layout, SamePlaces, Alike, Chain, LexFrom, AllLexable, LexemesFit, WithDefaults;
    var limits := WithDefaults(given);
    assert |gaps| == |others| == |pieces| by { SameSizes(gaps, last, others, ending, pieces); }
    LexLaid(EndOfInput, gaps, pieces, last, "", 0, limits);
    LexLaid(EndOfInput, others, pieces, ending, "", 0, limits);
    assert "" + Lay(gaps, pieces, last) == Lay(gaps, pieces, last);
    assert "" + Lay(others, pieces, ending) == Lay(others, pieces, ending);
    LayoutsAlike(gaps, last, others, ending, pieces, limits);
    ParseAlike(LaidSource(gaps, pieces, last, limits), LaidSource(others, pieces, ending, limits));
  }

  lemma SameSizes(gaps: seq<string>, last: string, others: seq<string>, ending: string, pieces: seq<Piece>)
    requires Layout(EndOfInput, gaps, pieces, last) && Layout(EndOfInput, others, pieces, ending)
    ensures |gaps| == |others| == |pieces|
  {}

  // ---- printed trees ----

  // The gaps of the printer: single spaces.
  function Spaces(before: TokenKind, pieces: seq<Piece>): (gaps: seq<string>)
    ensures |gaps| == |pieces|
    decreases |pieces|
  {
    if pieces == [] then [] else [Space(before, pieces[0].kind)] + Spaces(pieces[0].kind, pieces[1..])
  }

  lemma {:induction false} SpacesAre(before: TokenKind, pieces: seq<Piece>)
    ensures forall k :: 0 <= k < |pieces| ==>
      Spaces(before, pieces)[k] == Space(if k == 0 then before else pieces[k - 1].kind, pieces[k].kind)
    ensures Lay(Spaces(before, pieces), pieces, "") == Render(before, pieces)
    decreases |pieces|
  {
    hide Space;
    if pieces != [] {
      var rest, more := pieces[1..], Spaces(pieces[0].kind, pieces[1..]);
      SpacesAre(pieces[0].kind, rest);
      var gaps := Spaces(before, pieces);
      assert gaps == [Space(before, pieces[0].kind)] + more;
      forall k | 0 <= k < |pieces|
        ensures gaps[k] == Space(if k == 0 then before else pieces[k - 1].kind, pieces[k].kind)
      {
        if k > 0 {
          assert gaps[k] == more[k - 1] && rest[k - 1] == pieces[k];
          assert k > 1 ==> rest[k - 2] == pieces[k - 1];
        }
      }
    }
  }

  lemma SpacesLayOut(pieces: seq<Piece>)
    ensures Layout(EndOfInput, Spaces(EndOfInput, pieces), pieces, "")
  {
    SpacesAre(EndOfInput, pieces);
    var gaps := Spaces(EndOfInput, pieces);
    forall k | 0 <= k < |gaps| ensures Blank(gaps[k]) {
      SpaceIsSpace(if k == 0 then EndOfInput else pieces[k - 1].kind, pieces[k].kind);
    }
  }

  /** Whitespace where the printer writes a space; none around slashes and before the
      parenthesis of a quantifier; elsewhere as one likes. */
  ghost predicate SpacedAsRead(gaps: seq<string>, pieces: seq<Piece>)
    requires |gaps| == |pieces|
  {
    forall k :: 0 < k < |pieces| ==>
      && (Gap(pieces[k - 1].kind, pieces[k].kind) ==> gaps[k] != "")
      && (MustTouch(pieces[k - 1].kind, pieces[k].kind) ==> gaps[k] == "")
  }

  // What parses is spaced so, and has no operator without an operand before it.
  lemma ParsedIsSpaced(gaps: seq<string>, pieces: seq<Piece>, last: string, given: Limits)
    requires Layout(EndOfInput, gaps, pieces, last) && AllLexable(pieces)
    requires LexemesFit(pieces, WithDefaults(given)) && |pieces| <= WithDefaults(given).maxTokens
    requires ParseFilter(Lay(gaps, pieces, last), given).Ok?
    ensures |gaps| == |pieces| && SpacedAsRead(gaps, pieces)
    ensures forall k :: 0 < k < |pieces| ==> !Odd(pieces[k - 1].kind, pieces[k].kind)
  {
    hide LaidTokens, Lay, Chain, LexFrom, LexemesFit, WithDefaults, Gap, MustTouch, Odd, RequiredSpacing, Blank,
      Touching;
    var limits := WithDefaults(given);
    LexLaid(EndOfInput, gaps, pieces, last, "", 0, limits);
    assert "" + Lay(gaps, pieces, last) == Lay(gaps, pieces, last);
    LaidEnds(gaps, pieces, last, limits);
    var s: Source := LaidSource(gaps, pieces, last, limits);
    forall k | 0 <= k < |pieces| ensures s.tokens[k].kind == pieces[k].kind && s.tokens[k].kind != EndOfInput {
      LaidAt("", gaps, pieces, last, k);
      LexableKind(pieces[k]);
    }
    AcceptedIsSpaced(s);
    assert forall k :: 0 <= k < |gaps| ==> Blank(gaps[k]);
    forall k | 0 < k < |pieces|
      ensures (Gap(pieces[k - 1].kind, pieces[k].kind) ==> gaps[k] != "")
        && (MustTouch(pieces[k - 1].kind, pieces[k].kind) ==> gaps[k] == "")
        && !Odd(pieces[k - 1].kind, pieces[k].kind)
    {
      assert SpacedRight(s, k - 1);
      GapIsRight(gaps, pieces, last, limits, k);
    }
  }

  lemma GapIsRight(gaps: seq<string>, pieces: seq<Piece>, last: string, limits: Limits, k: nat)
    requires |gaps| == |pieces| && 0 < k < |pieces| && Blank(gaps[k])
    requires EndsWithEof(LaidSource(gaps, pieces, last, limits)) && |LaidTokens(gaps, pieces, last, 0)| == |pieces| + 1
    requires SpacedRight(LaidSource(gaps, pieces, last, limits), k - 1)
    requires var s: Source := LaidSource(gaps, pieces, last, limits);
      Kind(s, k - 1) == pieces[k - 1].kind && Kind(s, k) == pieces[k].kind
    ensures Gap(pieces[k - 1].kind, pieces[k].kind) ==> gaps[k] != ""
    ensures MustTouch(pieces[k - 1].kind, pieces[k].kind) ==> gaps[k] == ""
    ensures !Odd(pieces[k - 1].kind, pieces[k].kind)
  {
    hide LaidTokens, Lay, Gap, MustTouch, Odd, RequiredSpacing, Blank, Touching;
    GapAt(gaps, pieces, last, limits, k - 1);
  }

  lemma LexableKind(p: Piece)
    requires Lexable(p)
    ensures p.kind != EndOfInput
  {}

  /** A printed tree laid out in any way is read back if and only if it is spaced so. */
  lemma ParseAnyLayout(e: Expr, style: Style, gaps: seq<string>, last: string, given: Limits)
    requires Printable(e) && Fits(e, WithDefaults(given), TOP) && TextFits(e, style, WithDefaults(given))
    requires var pieces := Print(e, 0, style);
      Layout(EndOfInput, gaps, pieces, last) && |Lay(gaps, pieces, last)| <= WithDefaults(given).maxFilterBytes
    ensures var text := Lay(gaps, Print(e, 0, style), last);
      && (ParseFilter(text, given).Ok? <==> SpacedAsRead(gaps, Print(e, 0, style)))
      && (ParseFilter(text, given).Ok? ==> ParseFilter(text, given) == Ok(e))
  {
    hide Lay, Printable, Fits, ParseFilter, Print, Render, Gap, MustTouch, Odd, FreeGap, Blank;
    var pieces := Print(e, 0, style);
    ParsePrint(e, style, given);
    PrintIsShown(e, 0, style);
    PrintIsLexable(e, Parenthesised(e, 0, style), style);
    SpacesAre(EndOfInput, pieces);
    SpacesLayOut(pieces);
    var spaces := Spaces(EndOfInput, pieces);
    ParsedIsSpaced(spaces, pieces, "", given);
    if ParseFilter(Lay(gaps, pieces, last), given).Ok? {
      ParsedIsSpaced(gaps, pieces, last, given);
    }
    if SpacedAsRead(gaps, pieces) {
      forall k | 0 < k < |pieces| && !FreeGap(pieces[k - 1].kind, pieces[k].kind)
        ensures spaces[k] == "" <==> gaps[k] == ""
      {
        LexableKind(pieces[k - 1]);
        NotFree(pieces[k - 1].kind, pieces[k].kind);
      }
      LayoutsParse(spaces, "", gaps, last, pieces, given, e);
    }
  }

  lemma NotFree(before: TokenKind, after: TokenKind)
    requires !FreeGap(before, after) && !Odd(before, after) && before != EndOfInput
    ensures Gap(before, after) <==> !MustTouch(before, after)
  {}
}
