/** The sort texts that are read as given terms: all of them, and no others. */
module SortSpelling {
  import opened Common
  import opened Strings
  import opened Lexer
  import opened Rendering
  import opened SortParameter

  // What may stand behind a term: nothing, or a comma, whitespace and the terms that follow.
  ghost predicate Continues(rest: string, terms: seq<SortTerm>)
    decreases |terms|, 1
  {
    if terms == [] then rest == ""
    else exists lead, more :: rest == "," + lead + more && Blank(lead) && Spells(more, terms)
  }

  /** A minus for descending terms, the path, and whitespace around the commas. */
  ghost predicate Spells(text: string, terms: seq<SortTerm>)
    decreases |terms|, 0
  {
    terms != [] &&
    exists gap, rest :: text == TermText(terms[0]) + gap + rest && Blank(gap) && Continues(rest, terms[1..])
  }

  // ---- every spelling is read ----

  lemma BlankRegion(front: string, gap: string, rest: string)
    requires Blank(gap) && (rest != "" ==> !IsWhitespace(rest[0]))
    ensures SkipWhitespace(front + gap + rest, |front|) == |front| + |gap|
  {
    var input, end := front + gap + rest, |front| + |gap|;
    assert forall i :: |front| <= i < end ==> input[i] == gap[i - |front|];
    assert rest != "" ==> input[end] == rest[0];
    BlankIsSkipped(input, |front|, end);
  }

  lemma TermIsFound(front: string, term: SortTerm, gap: string, rest: string, maxPathDepth: int)
    requires IsPath(term.field) && SegmentCount(term.field) <= maxPathDepth && Blank(gap)
    requires rest == "" || rest[0] == ','
    ensures var input := front + (TermText(term) + gap + rest);
      var start := if term.desc then |front| + 1 else |front|; var end := |front| + |TermText(term)|;
      && |front| < |input| && !IsWhitespace(input[|front|]) && (input[|front|] == '-' <==> term.desc)
      && PathEnd(input, start, 0, maxPathDepth) == Ok(end) && input[start..end] == term.field
      && SkipWhitespace(input, end) == end + |gap|
  {
    hide PathEnd, Split, IsPath, Blank, SkipWhitespace, TermText, SegmentCount;
    var tail := gap + rest;
    var input := front + (TermText(term) + gap + rest);
    assert input == front + TermText(term) + tail && input == (front + TermText(term)) + gap + rest;
    TermStart(term, front, tail);
    TailEndsPath(gap, rest);
    PathIsFound(front, term, tail, maxPathDepth);
    BlankRegion(front + TermText(term), gap, rest);
  }

  lemma TailEndsPath(gap: string, rest: string)
    requires Blank(gap) && (rest == "" || rest[0] == ',')
    ensures EndsPath(gap + rest)
  {
    assert gap + rest != "" ==> (gap + rest)[0] == if gap != "" then gap[0] else rest[0];
  }

  lemma PathIsFound(front: string, term: SortTerm, tail: string, maxPathDepth: int)
    requires IsPath(term.field) && SegmentCount(term.field) <= maxPathDepth && EndsPath(tail)
    ensures var input := front + TermText(term) + tail;
      var start := if term.desc then |front| + 1 else |front|; var end := |front| + |TermText(term)|;
      PathEnd(input, start, 0, maxPathDepth) == Ok(end) && input[start..end] == term.field
  {
    hide PathEnd, Split, IsPath, EndsPath;
    var lead := front + if term.desc then "-" else "";
    assert front + TermText(term) + tail == lead + term.field + tail;
    PathWords(term.field);
    PathIsScanned(lead, Split('/', term.field), tail, 0, maxPathDepth);
  }

  lemma PathWords(path: string)
    requires IsPath(path)
    ensures forall k :: 0 <= k < |Split('/', path)| ==> IsValidIdentifier(Split('/', path)[k])
  {}

  lemma StepFrom(input: string, pos: nat, before: seq<SortTerm>, term: SortTerm, end: nat, maxTerms: int,
                 maxPathDepth: int)
    requires pos < |input| && (input[pos] == '-' <==> term.desc)
    requires var start := if term.desc then pos + 1 else pos;
      PathEnd(input, start, 0, maxPathDepth) == Ok(end) && input[start..end] == term.field
    requires !Repeats(before, term.field) && |before| + 1 <= maxTerms
    ensures var next := AfterTerm(input, SkipWhitespace(input, end));
      var spec := SortTerms(input, pos, before, maxTerms, maxPathDepth);
      && (next.Ok? && next.value.None? ==> spec == Ok(before + [term]))
      && (next.Ok? && next.value.Some? ==>
          spec == SortTerms(input, next.value.value, before + [term], maxTerms, maxPathDepth))
  {
    hide PathEnd, Repeats, AfterTerm;
  }

  // The first term of a spelling and what is behind it.
  lemma SpelledFirst(text: string, terms: seq<SortTerm>) returns (gap: string, lead: string, more: string)
    requires Spells(text, terms)
    ensures terms != [] && Blank(gap) && Blank(lead) && (terms[1..] != [] ==> Spells(more, terms[1..]))
    ensures text == TermText(terms[0]) + gap + if terms[1..] == [] then "" else "," + lead + more
  {
    hide Blank, TermText, Continues;
    var rest: string;
    gap, rest :| text == TermText(terms[0]) + gap + rest && Blank(gap) && Continues(rest, terms[1..]);
    NothingIsBlank();
    lead, more := ContinuesWith(rest, terms[1..]);
    if terms[1..] == [] {
      lead := "";
    }
  }

  lemma ContinuesWith(rest: string, terms: seq<SortTerm>) returns (lead: string, more: string)
    requires Continues(rest, terms)
    ensures if terms == [] then rest == "" else rest == "," + lead + more && Blank(lead) && Spells(more, terms)
  {
    hide Spells, Blank;
    lead, more := "", "";
    if terms != [] {
      lead, more :| rest == "," + lead + more && Blank(lead) && Spells(more, terms);
    }
  }

  lemma NothingIsBlank()
    ensures Blank("")
  {}

  lemma {:induction false} SpelledIsRead(front: string, text: string, before: seq<SortTerm>, terms: seq<SortTerm>,
                                         maxTerms: int, maxPathDepth: int)
    requires Spells(text, terms) && GoodTerms(before + terms, maxPathDepth) && |before + terms| <= maxTerms
    ensures |front| < |front + text| && !IsWhitespace((front + text)[|front|])
    ensures SortTerms(front + text, |front|, before, maxTerms, maxPathDepth) == Ok(before + terms)
    decreases |terms|
  {
    hide PathEnd, TermText, IsPath, SortTerms, GoodTerms, SegmentCount, Repeats, Blank, Spells, SkipWhitespace,
      AfterTerm;
    var gap, lead, more := SpelledFirst(text, terms);
    var term, later := terms[0], terms[1..];
    var rest := if later == [] then "" else "," + lead + more;
    FirstGood(before, terms, maxPathDepth);
    TermIsFound(front, term, gap, rest, maxPathDepth);
    var input, end := front + text, |front| + |TermText(term)|;
    StepFrom(input, |front|, before, term, end, maxTerms, maxPathDepth);
    if later == [] {
      AtEnd(input, end + |gap|);
      assert before + terms == before + [term];
    } else {
      var head := front + TermText(term) + gap;
      assert input == head + "," + lead + more && input == (head + "," + lead) + more;
      assert before + terms == (before + [term]) + later;
      SpelledIsRead(head + "," + lead, more, before + [term], later, maxTerms, maxPathDepth);
      CommaIsSkipped(head, lead, more);
    }
  }

  lemma AtEnd(input: string, pos: nat)
    requires pos == |input|
    ensures AfterTerm(input, pos) == Ok(None)
  {}

  lemma CommaIsSkipped(front: string, lead: string, more: string)
    requires Blank(lead) && more != "" && !IsWhitespace(more[0])
    ensures AfterTerm(front + "," + lead + more, |front|) == Ok(Some(|front| + 1 + |lead|))
  {
    var input := front + "," + lead + more;
    var start := |front| + 1;
    assert input[|front|] == ',';
    assert forall i :: start <= i < start + |lead| ==> input[i] == lead[i - start];
    assert input[start + |lead|] == more[0];
    BlankIsSkipped(input, start, start + |lead|);
  }

  // ---- nothing else is read ----

  lemma BlankSlice(input: string, pos: nat)
    requires pos <= |input|
    ensures Blank(input[pos..SkipWhitespace(input, pos)])
  {}

  lemma GoodMore(before: seq<SortTerm>, term: SortTerm, maxPathDepth: int)
    requires GoodTerms(before, maxPathDepth) && !Repeats(before, term.field)
    requires IsPath(term.field) && SegmentCount(term.field) <= maxPathDepth
    ensures GoodTerms(before + [term], maxPathDepth)
  {
    hide IsPath;
  }

  lemma SpellsMore(term: SortTerm, gap: string, lead: string, more: string, later: seq<SortTerm>, text: string)
    requires Blank(gap) && Blank(lead) && (later != [] ==> Spells(more, later))
    requires text == TermText(term) + gap + if later == [] then "" else "," + lead + more
    ensures Spells(text, [term] + later)
  {
    hide Blank, TermText;
    var terms := [term] + later;
    assert terms[1..] == later;
    assert Continues(if later == [] then "" else "," + lead + more, later);
  }

  // One term read: its text, the whitespace behind it, and where the next one starts.
  lemma ReadStep(input: string, pos: nat, before: seq<SortTerm>, maxTerms: int, maxPathDepth: int)
    returns (term: SortTerm, gap: string, lead: string, next: nat)
    requires pos < |input| && SortTerms(input, pos, before, maxTerms, maxPathDepth).Ok?
    ensures !Repeats(before, term.field) && IsPath(term.field) && SegmentCount(term.field) <= maxPathDepth
    ensures |before| + 1 <= maxTerms && Blank(gap) && Blank(lead) && pos < next <= |input|
    ensures input[pos..] == TermText(term) + gap + if next == |input| then "" else "," + lead + input[next..]
    ensures SortTerms(input, pos, before, maxTerms, maxPathDepth) ==
      if next == |input| then Ok(before + [term]) else SortTerms(input, next, before + [term], maxTerms, maxPathDepth)
  {
    hide PathEnd, IsPath, SegmentCount, Repeats, Blank, SortTerms, AfterTerm, TermText;
    var desc := input[pos] == '-';
    var start := if desc then pos + 1 else pos;
    TermRead(input, pos, before, maxTerms, maxPathDepth);
    var end := PathEnd(input, start, 0, maxPathDepth).value;
    var stop := SkipWhitespace(input, end);
    term := SortTerm(input[start..end], desc);
    PathIsGood(input, start, maxPathDepth);
    StepFrom(input, pos, before, term, end, maxTerms, maxPathDepth);
    BlankSlice(input, end);
    NothingIsBlank();
    gap, lead, next := input[end..stop], "", |input|;
    assert input[pos..end] == TermText(term) by { TermSlice(input, pos, end, desc); }
    ThreeSlices(input, pos, end, stop);
    AfterTermRead(input, stop);
    if stop < |input| {
      next := SkipWhitespace(input, stop + 1);
      lead := input[stop + 1..next];
      BlankSlice(input, stop + 1);
    }
  }

  lemma ThreeSlices(input: string, a: nat, b: nat, c: nat)
    requires a <= b <= c <= |input|
    ensures input[a..] == input[a..b] + input[b..c] + input[c..]
  {}

  lemma TermRead(input: string, pos: nat, before: seq<SortTerm>, maxTerms: int, maxPathDepth: int)
    requires pos < |input| && SortTerms(input, pos, before, maxTerms, maxPathDepth).Ok?
    ensures var start := if input[pos] == '-' then pos + 1 else pos; var end := PathEnd(input, start, 0, maxPathDepth);
      && end.Ok? && !Repeats(before, input[start..end.value]) && |before| + 1 <= maxTerms
      && AfterTerm(input, SkipWhitespace(input, end.value)).Ok?
  {
    hide PathEnd, Repeats, AfterTerm, SkipWhitespace;
  }

  lemma TermSlice(input: string, pos: nat, end: nat, desc: bool)
    requires pos < end <= |input| && desc == (input[pos] == '-')
    ensures input[pos..end] == TermText(SortTerm(input[if desc then pos + 1 else pos..end], desc))
  {}

  lemma AfterTermRead(input: string, pos: nat)
    requires pos <= |input| && AfterTerm(input, pos).Ok?
    ensures pos == |input| ==> AfterTerm(input, pos) == Ok(None)
    ensures pos < |input| ==>
      var next := SkipWhitespace(input, pos + 1);
      next < |input| && AfterTerm(input, pos) == Ok(Some(next))
        && input[pos..] == "," + input[pos + 1..next] + input[next..]
  {}

  lemma {:induction false} ReadIsSpelled(input: string, pos: nat, before: seq<SortTerm>, maxTerms: int,
                                         maxPathDepth: int)
    returns (terms: seq<SortTerm>)
    requires pos < |input| && GoodTerms(before, maxPathDepth)
      && SortTerms(input, pos, before, maxTerms, maxPathDepth).Ok?
    ensures SortTerms(input, pos, before, maxTerms, maxPathDepth) == Ok(before + terms)
    ensures Spells(input[pos..], terms) && GoodTerms(before + terms, maxPathDepth) && |before + terms| <= maxTerms
    decreases |input| - pos
  {
    hide SortTerms, IsPath, GoodTerms, SegmentCount, Repeats, Blank, Spells, TermText;
    var term, gap, lead, next := ReadStep(input, pos, before, maxTerms, maxPathDepth);
    GoodMore(before, term, maxPathDepth);
    if next == |input| {
      terms := [term];
      SpellsMore(term, gap, lead, "", [], input[pos..]);
      assert [term] + [] == [term];
    } else {
      var later := ReadIsSpelled(input, next, before + [term], maxTerms, maxPathDepth);
      terms := [term] + later;
      assert before + terms == (before + [term]) + later;
      assert later != [] by { SomethingSpelled(input[next..], later); }
      SpellsMore(term, gap, lead, input[next..], later, input[pos..]);
    }
  }

  lemma SomethingSpelled(text: string, terms: seq<SortTerm>)
    requires Spells(text, terms)
    ensures terms != []
  {}

  lemma PathIsGood(input: string, start: nat, maxPathDepth: int)
    requires start <= |input| && PathEnd(input, start, 0, maxPathDepth).Ok?
    ensures var path := input[start..PathEnd(input, start, 0, maxPathDepth).value];
      IsPath(path) && SegmentCount(path) <= maxPathDepth
  {
    hide Split, PathEnd;
    PathEndSplits(input, start, 0, maxPathDepth, maxPathDepth);
  }

  /** A sort parameter is read as these terms if and only if, behind leading whitespace, it
      spells them, no path occurs twice, and number and depths are within the limits. */
  lemma SortExactly(input: string, terms: seq<SortTerm>, maxTerms: int, maxPathDepth: int)
    ensures SortOf(input, maxTerms, maxPathDepth) == Ok(terms) <==>
      && (exists lead, text :: input == lead + text && Blank(lead) && Spells(text, terms))
      && GoodTerms(terms, maxPathDepth) && |terms| <= maxTerms
  {
    hide SortTerms, Spells, GoodTerms, Blank;
    var start := SkipWhitespace(input, 0);
    if SortOf(input, maxTerms, maxPathDepth) == Ok(terms) {
      BlankSlice(input, 0);
      NothingGood(maxPathDepth);
      var found := ReadIsSpelled(input, start, [], maxTerms, maxPathDepth);
      assert [] + found == found;
      assert input == input[..start] + input[start..] && input[0..start] == input[..start];
    }
    if GoodTerms(terms, maxPathDepth) && |terms| <= maxTerms {
      forall lead, text | input == lead + text && Blank(lead) && Spells(text, terms)
        ensures SortOf(input, maxTerms, maxPathDepth) == Ok(terms)
      {
        assert [] + terms == terms;
        SpelledIsRead(lead, text, [], terms, maxTerms, maxPathDepth);
        LeadIsSkipped(lead, text);
      }
    }
  }

  lemma LeadIsSkipped(lead: string, text: string)
    requires Blank(lead) && text != "" && !IsWhitespace(text[0])
    ensures SkipWhitespace(lead + text, 0) == |lead|
  {
    var input := lead + text;
    assert forall i :: 0 <= i < |lead| ==> input[i] == lead[i];
    assert input[|lead|] == text[0];
    BlankIsSkipped(input, 0, |lead|);
  }

  lemma NothingGood(maxPathDepth: int)
    ensures GoodTerms([], maxPathDepth)
  {}

  // ---- the legacy form ----

  /** The direction behind a path: none, or a word set off by whitespace. */
  ghost predicate Directs(text: string, desc: bool) {
    (Blank(text) && !desc) ||
    exists gap, more :: gap != "" && Blank(gap) && Blank(more) && text == gap + (if desc then "desc" else "asc") + more
  }

  ghost predicate ContinuesOld(rest: string, terms: seq<SortTerm>)
    decreases |terms|, 1
  {
    if terms == [] then rest == ""
    else exists lead, more :: rest == "," + lead + more && Blank(lead) && SpellsOld(more, terms)
  }

  ghost predicate SpellsOld(text: string, terms: seq<SortTerm>)
    decreases |terms|, 0
  {
    terms != [] &&
    exists direction, rest ::
      text == terms[0].field + direction + rest && Directs(direction, terms[0].desc) && ContinuesOld(rest, terms[1..])
  }

  lemma DirectionIsFound(front: string, direction: string, rest: string, desc: bool)
    requires Directs(direction, desc) && (rest == "" || rest[0] == ',')
    ensures Direction(front + direction + rest, |front|) == Ok((desc, |front| + |direction|))
  {
    hide Direction, WordEnd, Blank;
    if Blank(direction) && !desc {
      BlankDirection(front, direction, rest);
    } else {
      var gap, more :| gap != "" && Blank(gap) && Blank(more)
        && direction == gap + (if desc then "desc" else "asc") + more;
      WordDirection(front, gap, if desc then "desc" else "asc", more, rest);
    }
  }

  lemma BlankDirection(front: string, gap: string, rest: string)
    requires Blank(gap) && (rest == "" || rest[0] == ',')
    ensures Direction(front + gap + rest, |front|) == Ok((false, |front| + |gap|))
  {
    hide Blank, SkipWhitespace;
    BlankRegion(front, gap, rest);
    assert rest != "" ==> (front + gap + rest)[|front| + |gap|] == rest[0];
  }

  lemma WordDirection(front: string, gap: string, word: string, more: string, rest: string)
    requires gap != "" && Blank(gap) && Blank(more) && (word == "asc" || word == "desc")
      && (rest == "" || rest[0] == ',')
    ensures Direction(front + (gap + word + more) + rest, |front|) ==
      Ok((word == "desc", |front| + |gap + word + more|))
  {
    hide Direction, Blank, SkipWhitespace, WordEnd;
    var input := front + (gap + word + more) + rest;
    var start := |front| + |gap|;
    var end := start + |word|;
    var tail := more + rest;
    Regroup(front, gap, word, more, rest);
    BlankRegion(front, gap, word + tail);
    BlankRegion(front + gap + word, more, rest);
    FirstOfTail(more, rest);
    WordRegion(front + gap, word, tail);
    DirectionReads(input, |front|, start, end);
  }

  lemma Regroup(front: string, gap: string, word: string, more: string, rest: string)
    requires word != ""
    ensures var input := front + (gap + word + more) + rest; var start := |front| + |gap|;
      && input == front + gap + (word + (more + rest)) && (word + (more + rest))[0] == word[0]
      && input == (front + gap + word) + more + rest && input == (front + gap) + word + (more + rest)
      && input[start..start + |word|] == word
  {
    var input := front + (gap + word + more) + rest;
    assert input == (front + gap) + word + (more + rest);
    assert input == front + gap + (word + (more + rest));
    assert input == (front + gap + word) + more + rest;
  }

  lemma FirstOfTail(more: string, rest: string)
    requires Blank(more) && (rest == "" || rest[0] == ',')
    ensures more + rest != "" ==> !IsIdentifierContinue((more + rest)[0])
  {
    assert more + rest != "" ==> (more + rest)[0] == if more != "" then more[0] else rest[0];
  }

  lemma WordRegion(front: string, word: string, rest: string)
    requires word == "asc" || word == "desc"
    requires rest != "" ==> !IsIdentifierContinue(rest[0])
    ensures WordEnd(front + word + rest, |front| + 1) == |front| + |word|
  {
    var input, end := front + word + rest, |front| + |word|;
    assert forall i :: |front| <= i < end ==> input[i] == word[i - |front|];
    assert rest != "" ==> input[end] == rest[0];
    WordEndAt(input, |front| + 1, end);
  }

  lemma DirectionReads(input: string, pos: nat, start: nat, end: nat)
    requires pos < start < end <= |input| && SkipWhitespace(input, pos) == start && WordEnd(input, start + 1) == end
    requires input[start..end] == "asc" || input[start..end] == "desc"
    ensures Direction(input, pos) == Ok((input[start..end] == "desc", SkipWhitespace(input, end)))
  {
    hide SkipWhitespace, WordEnd;
    assert input[start] == input[start..end][0];
  }

  lemma DirectionIsSpelled(input: string, pos: nat)
    requires pos <= |input| && Direction(input, pos).Ok?
    ensures var (desc, stop) := Direction(input, pos).value; Directs(input[pos..stop], desc)
  {
    hide Blank, WordEnd, SkipWhitespace;
    var (desc, stop) := Direction(input, pos).value;
    var word := SkipWhitespace(input, pos);
    BlankSlice(input, pos);
    if word < |input| && input[word] != ',' {
      var end := WordEnd(input, word + 1);
      BlankSlice(input, end);
      assert input[pos..stop] == input[pos..word] + input[word..end] + input[end..stop];
      assert input[word..end] == if desc then "desc" else "asc";
    }
  }

  lemma {:induction false} SpelledOldIsRead(front: string, text: string, before: seq<SortTerm>, terms: seq<SortTerm>,
                                            maxPathDepth: int)
    requires SpellsOld(text, terms) && GoodTerms(before + terms, maxPathDepth)
    ensures |front| < |front + text| && !IsWhitespace((front + text)[|front|])
    ensures OrderByTerms(front + text, |front|, before, maxPathDepth) == Ok(before + terms)
    decreases |terms|
  {
    hide PathEnd, IsPath, OrderByTerms, GoodTerms, SegmentCount, Repeats, Blank, SpellsOld, SkipWhitespace, AfterTerm,
      Direction, Directs;
    var direction, lead, more := SpelledOldFirst(text, terms);
    var term, later := terms[0], terms[1..];
    var rest := if later == [] then "" else "," + lead + more;
    FirstGood(before, terms, maxPathDepth);
    DirectionEndsPath(direction, rest, term.desc);
    FieldStart(term, front, direction + rest);
    FieldIsScanned(term, front, direction + rest, maxPathDepth);
    var input, end := front + text, |front| + |term.field|;
    assert input == front + term.field + (direction + rest) && input == (front + term.field) + direction + rest;
    DirectionIsFound(front + term.field, direction, rest, term.desc);
    OrderByStep(input, |front|, before, term, end, end + |direction|, maxPathDepth);
    if later == [] {
      AtEnd(input, end + |direction|);
      assert before + terms == before + [term];
    } else {
      var head := front + term.field + direction;
      assert input == head + "," + lead + more && input == (head + "," + lead) + more;
      assert before + terms == (before + [term]) + later;
      SpelledOldIsRead(head + "," + lead, more, before + [term], later, maxPathDepth);
      CommaIsSkipped(head, lead, more);
    }
  }

  lemma DirectionEndsPath(direction: string, rest: string, desc: bool)
    requires Directs(direction, desc) && (rest == "" || rest[0] == ',')
    ensures EndsPath(direction + rest)
  {
    var tail := direction + rest;
    if direction != "" {
      assert tail[0] == direction[0];
    }
  }

  lemma SpelledOldFirst(text: string, terms: seq<SortTerm>) returns (direction: string, lead: string, more: string)
    requires SpellsOld(text, terms)
    ensures terms != [] && Directs(direction, terms[0].desc) && Blank(lead)
      && (terms[1..] != [] ==> SpellsOld(more, terms[1..]))
    ensures text == terms[0].field + direction + if terms[1..] == [] then "" else "," + lead + more
  {
    hide Blank, Directs, ContinuesOld;
    var rest: string;
    direction, rest :|
      text == terms[0].field + direction + rest && Directs(direction, terms[0].desc) && ContinuesOld(rest, terms[1..]);
    NothingIsBlank();
    lead, more := ContinuesOldWith(rest, terms[1..]);
    if terms[1..] == [] {
      lead := "";
    }
  }

  lemma ContinuesOldWith(rest: string, terms: seq<SortTerm>) returns (lead: string, more: string)
    requires ContinuesOld(rest, terms)
    ensures if terms == [] then rest == "" else rest == "," + lead + more && Blank(lead) && SpellsOld(more, terms)
  {
    hide SpellsOld, Blank;
    lead, more := "", "";
    if terms != [] {
      lead, more :| rest == "," + lead + more && Blank(lead) && SpellsOld(more, terms);
    }
  }

  lemma OldTermRead(input: string, pos: nat, before: seq<SortTerm>, maxPathDepth: int)
    requires pos < |input| && OrderByTerms(input, pos, before, maxPathDepth).Ok?
    ensures var end := PathEnd(input, pos, 0, maxPathDepth);
      && end.Ok? && !Repeats(before, input[pos..end.value]) && Direction(input, end.value).Ok?
      && AfterTerm(input, Direction(input, end.value).value.1).Ok?
  {
    hide PathEnd, Repeats, AfterTerm, Direction;
  }

  lemma OldReadStep(input: string, pos: nat, before: seq<SortTerm>, maxPathDepth: int)
    returns (term: SortTerm, direction: string, lead: string, next: nat)
    requires pos < |input| && OrderByTerms(input, pos, before, maxPathDepth).Ok?
    ensures !Repeats(before, term.field) && IsPath(term.field) && SegmentCount(term.field) <= maxPathDepth
    ensures Directs(direction, term.desc) && Blank(lead) && pos < next <= |input|
    ensures input[pos..] == term.field + direction + if next == |input| then "" else "," + lead + input[next..]
    ensures OrderByTerms(input, pos, before, maxPathDepth) ==
      if next == |input| then Ok(before + [term]) else OrderByTerms(input, next, before + [term], maxPathDepth)
  {
    hide PathEnd, IsPath, SegmentCount, Repeats, Blank, OrderByTerms, AfterTerm, Direction, Directs;
    OldTermRead(input, pos, before, maxPathDepth);
    var end := PathEnd(input, pos, 0, maxPathDepth).value;
    var (desc, stop) := Direction(input, end).value;
    term := SortTerm(input[pos..end], desc);
    PathIsGood(input, pos, maxPathDepth);
    OrderByStep(input, pos, before, term, end, stop, maxPathDepth);
    DirectionIsSpelled(input, end);
    NothingIsBlank();
    direction, lead, next := input[end..stop], "", |input|;
    ThreeSlices(input, pos, end, stop);
    AfterTermRead(input, stop);
    if stop < |input| {
      next := SkipWhitespace(input, stop + 1);
      lead := input[stop + 1..next];
      BlankSlice(input, stop + 1);
    }
  }

  lemma SpellsOldMore(term: SortTerm, direction: string, lead: string, more: string, later: seq<SortTerm>, text: string)
    requires Directs(direction, term.desc) && Blank(lead) && (later != [] ==> SpellsOld(more, later))
    requires text == term.field + direction + if later == [] then "" else "," + lead + more
    ensures SpellsOld(text, [term] + later)
  {
    hide Blank, Directs;
    var terms := [term] + later;
    var rest := if later == [] then "" else "," + lead + more;
    assert terms[1..] == later && ContinuesOld(rest, later);
    assert text == terms[0].field + direction + rest && Directs(direction, terms[0].desc);
  }

  lemma {:induction false} OldReadIsSpelled(input: string, pos: nat, before: seq<SortTerm>, maxPathDepth: int)
    returns (terms: seq<SortTerm>)
    requires pos < |input| && GoodTerms(before, maxPathDepth) && OrderByTerms(input, pos, before, maxPathDepth).Ok?
    ensures OrderByTerms(input, pos, before, maxPathDepth) == Ok(before + terms)
    ensures SpellsOld(input[pos..], terms) && GoodTerms(before + terms, maxPathDepth)
    decreases |input| - pos
  {
    hide OrderByTerms, IsPath, GoodTerms, SegmentCount, Repeats, Blank, SpellsOld, Directs;
    var term, direction, lead, next := OldReadStep(input, pos, before, maxPathDepth);
    GoodMore(before, term, maxPathDepth);
    if next == |input| {
      terms := [term];
      SpellsOldMore(term, direction, lead, "", [], input[pos..]);
      assert [term] + [] == [term];
    } else {
      var later := OldReadIsSpelled(input, next, before + [term], maxPathDepth);
      terms := [term] + later;
      assert before + terms == (before + [term]) + later;
      assert later != [] by { SomethingSpelledOld(input[next..], later); }
      SpellsOldMore(term, direction, lead, input[next..], later, input[pos..]);
    }
  }

  lemma SomethingSpelledOld(text: string, terms: seq<SortTerm>)
    requires SpellsOld(text, terms)
    ensures terms != []
  {}

  /** The same for orderby, with its direction words. */
  lemma OrderByExactly(input: string, terms: seq<SortTerm>, maxPathDepth: int)
    ensures OrderByOf(input, maxPathDepth) == Ok(terms) <==>
      && (exists lead, text :: input == lead + text && Blank(lead) && SpellsOld(text, terms))
      && GoodTerms(terms, maxPathDepth)
  {
    hide OrderByTerms, SpellsOld, GoodTerms, Blank;
    var start := SkipWhitespace(input, 0);
    if OrderByOf(input, maxPathDepth) == Ok(terms) {
      BlankSlice(input, 0);
      NothingGood(maxPathDepth);
      var found := OldReadIsSpelled(input, start, [], maxPathDepth);
      assert [] + found == found;
      assert input == input[..start] + input[start..] && input[0..start] == input[..start];
    }
    if GoodTerms(terms, maxPathDepth) {
      forall lead, text | input == lead + text && Blank(lead) && SpellsOld(text, terms)
        ensures OrderByOf(input, maxPathDepth) == Ok(terms)
      {
        assert [] + terms == terms;
        SpelledOldIsRead(lead, text, [], terms, maxPathDepth);
        LeadIsSkipped(lead, text);
      }
    }
  }
}
