/** http.go's sort and orderby parameters: scanned by position, term by term. */
module SortParameter {
  import opened Common
  import opened Strings
  import opened Lexer

  datatype SortTerm = SortTerm(field: string, desc: bool)

  // ---- specification ----

  // Where a path of identifiers and slashes that starts at pos ends.
  function PathEnd(input: string, pos: nat, depth: nat, maxPathDepth: int): (r: Result<nat>)
    requires pos <= |input|
    ensures r.Ok? ==> pos < r.value <= |input|
    decreases |input| - pos
  {
    if pos == |input| || !IsIdentifierStart(input[pos]) then Err(InvalidParameter)
    else if depth + 1 > maxPathDepth then Err(LimitExceeded)
    else
      var end := WordEnd(input, pos + 1);
      if end == |input| || input[end] != '/' then Ok(end) else PathEnd(input, end + 1, depth + 1, maxPathDepth)
  }

  predicate Repeats(terms: seq<SortTerm>, name: string) {
    exists k :: 0 <= k < |terms| && terms[k].field == name
  }

  // What follows a term: the end, or a comma and the start of the next term.
  function AfterTerm(input: string, pos: nat): (r: Result<Option<nat>>)
    requires pos <= |input|
    ensures r.Ok? && r.value.Some? ==> pos < r.value.value < |input|
  {
    if pos == |input| then Ok(None)
    else if input[pos] != ',' then Err(InvalidParameter)
    else
      var next := SkipWhitespace(input, pos + 1);
      if next == |input| then Err(InvalidParameter) else Ok(Some(next))
  }

  function SortTerms(input: string, pos: nat, terms: seq<SortTerm>, maxTerms: int,
                     maxPathDepth: int): Result<seq<SortTerm>>
    requires pos < |input|
    decreases |input| - pos
  {
    var desc := input[pos] == '-';
    var start := if desc then pos + 1 else pos;
    var end :- PathEnd(input, start, 0, maxPathDepth);
    if Repeats(terms, input[start..end]) then Err(InvalidParameter)
    else
      var all := terms + [SortTerm(input[start..end], desc)];
      if |all| > maxTerms then Err(LimitExceeded)
      else
        var next :- AfterTerm(input, SkipWhitespace(input, end));
        if next.None? then Ok(all) else SortTerms(input, next.value, all, maxTerms, maxPathDepth)
  }

  function SortOf(input: string, maxTerms: int, maxPathDepth: int): Result<seq<SortTerm>> {
    var start := SkipWhitespace(input, 0);
    if start == |input| then Err(InvalidParameter) else SortTerms(input, start, [], maxTerms, maxPathDepth)
  }

  // The optional direction word after an orderby path that ends at pos.
  function Direction(input: string, pos: nat): (r: Result<(bool, nat)>)
    requires pos <= |input|
    ensures r.Ok? ==> pos <= r.value.1 <= |input|
  {
    var word := SkipWhitespace(input, pos);
    if word == |input| || input[word] == ',' then Ok((false, word))
    else if word == pos || !IsIdentifierStart(input[word]) then Err(InvalidParameter)
    else
      var end := WordEnd(input, word + 1);
      if input[word..end] != "asc" && input[word..end] != "desc" then Err(InvalidParameter)
      else Ok((input[word..end] == "desc", SkipWhitespace(input, end)))
  }

  function OrderByTerms(input: string, pos: nat, terms: seq<SortTerm>, maxPathDepth: int): Result<seq<SortTerm>>
    requires pos < |input|
    decreases |input| - pos
  {
    var end :- PathEnd(input, pos, 0, maxPathDepth);
    if Repeats(terms, input[pos..end]) then Err(InvalidParameter)
    else
      var direction :- Direction(input, end);
      var all := terms + [SortTerm(input[pos..end], direction.0)];
      var next :- AfterTerm(input, direction.1);
      if next.None? then Ok(all) else OrderByTerms(input, next.value, all, maxPathDepth)
  }

  function OrderByOf(input: string, maxPathDepth: int): Result<seq<SortTerm>> {
    var start := SkipWhitespace(input, 0);
    if start == |input| then Err(InvalidParameter) else OrderByTerms(input, start, [], maxPathDepth)
  }

  // ---- the scanners ----

  method SkipSpacing(input: string, position: nat) returns (end: nat)
    requires position <= |input|
    ensures end == SkipWhitespace(input, position)
  {
    end := position;
    while end < |input| && IsWhitespace(input[end])
      invariant end <= |input| && SkipWhitespace(input, end) == SkipWhitespace(input, position)
    {
      end := end + 1;
    }
  }

  method ScanWord(input: string, position: nat) returns (end: nat)
    requires position <= |input|
    ensures end == WordEnd(input, position)
  {
    end := position;
    while end < |input| && IsIdentifierContinue(input[end])
      invariant end <= |input| && WordEnd(input, end) == WordEnd(input, position)
    {
      end := end + 1;
    }
  }

  method ScanSortPath(input: string, start: nat, maxPathDepth: int) returns (result: Result<nat>)
    requires start <= |input|
    ensures result == PathEnd(input, start, 0, maxPathDepth)
  {
    var position := start;
    var depth := 0;
    while true
      invariant position <= |input|
        && PathEnd(input, position, depth, maxPathDepth) == PathEnd(input, start, 0, maxPathDepth)
      decreases |input| - position
    {
      if position >= |input| || !IsIdentifierStart(input[position]) {
        return Err(InvalidParameter);
      }
      depth := depth + 1;
      if depth > maxPathDepth {
        return Err(LimitExceeded);
      }
      position := ScanWord(input, position + 1);
      if position >= |input| || input[position] != '/' {
        return Ok(position);
      }
      position := position + 1;
    }
  }

  ghost predicate Fields(seen: set<string>, terms: seq<SortTerm>) {
    forall name :: name in seen <==> Repeats(terms, name)
  }

  lemma FieldsGrow(seen: set<string>, terms: seq<SortTerm>, term: SortTerm)
    requires Fields(seen, terms)
    ensures Fields(seen + {term.field}, terms + [term])
  {
    var all := terms + [term];
    forall name
      ensures Repeats(all, name) <==> Repeats(terms, name) || name == term.field
    {
      if Repeats(terms, name) {
        var k :| 0 <= k < |terms| && terms[k].field == name;
        assert all[k].field == name;
      }
      assert all[|terms|] == term;
    }
  }

  lemma SortTermsUnfold(input: string, pos: nat, terms: seq<SortTerm>, maxTerms: int, maxPathDepth: int)
    requires pos < |input|
    ensures var desc := input[pos] == '-'; var start := if desc then pos + 1 else pos;
      var path := PathEnd(input, start, 0, maxPathDepth);
        var spec := SortTerms(input, pos, terms, maxTerms, maxPathDepth);
      if path.Err? then spec == Err(path.code)
      else
        var name := input[start..path.value];
        var all := terms + [SortTerm(name, desc)];
        if Repeats(terms, name) then spec == Err(InvalidParameter)
        else if |all| > maxTerms then spec == Err(LimitExceeded)
        else
          var next := AfterTerm(input, SkipWhitespace(input, path.value));
          if next.Err? then spec == Err(next.code)
          else if next.value.None? then spec == Ok(all)
          else spec == SortTerms(input, next.value.value, all, maxTerms, maxPathDepth)
  {
    hide PathEnd, Repeats, AfterTerm;
  }

  lemma AfterTermUnfold(input: string, pos: nat)
    requires pos <= |input|
    ensures AfterTerm(input, pos) ==
      if pos == |input| then Ok(None)
      else if input[pos] != ',' || SkipWhitespace(input, pos + 1) == |input| then Err(InvalidParameter)
      else Ok(Some(SkipWhitespace(input, pos + 1)))
  {}

  lemma SeenMeans(seen: set<string>, terms: seq<SortTerm>, name: string)
    requires Fields(seen, terms)
    ensures name in seen <==> Repeats(terms, name)
  {}

  method ParseSort(input: string, maxTerms: int, maxPathDepth: int) returns (result: Result<seq<SortTerm>>)
    ensures result == SortOf(input, maxTerms, maxPathDepth)
  {
    hide PathEnd, Repeats, Fields, SortTerms, AfterTerm;
    var position := SkipSpacing(input, 0);
    if position == |input| {
      return Err(InvalidParameter);
    }
    var seen := {};
    var terms: seq<SortTerm> := [];
    assert Fields({}, []) by { NothingRepeats(); }
    while true
      invariant position < |input| && Fields(seen, terms)
      invariant SortTerms(input, position, terms, maxTerms, maxPathDepth) == SortOf(input, maxTerms, maxPathDepth)
      decreases |input| - position
    {
      SortTermsUnfold(input, position, terms, maxTerms, maxPathDepth);
      var desc := false;
      var nameStart := position;
      if input[position] == '-' {
        desc := true;
        nameStart := position + 1;
      }
      var end :- ScanSortPath(input, nameStart, maxPathDepth);
      var name := input[nameStart..end];
      SeenMeans(seen, terms, name);
      if name in seen {
        return Err(InvalidParameter);
      }
      FieldsGrow(seen, terms, SortTerm(name, desc));
      seen := seen + {name};
      position := SkipSpacing(input, end);
      terms := terms + [SortTerm(name, desc)];
      if |terms| > maxTerms {
        return Err(LimitExceeded);
      }
      AfterTermUnfold(input, position);
      if position == |input| {
        return Ok(terms);
      }
      if input[position] != ',' {
        return Err(InvalidParameter);
      }
      position := SkipSpacing(input, position + 1);
      if position == |input| {
        return Err(InvalidParameter);
      }
    }
  }

  lemma NothingRepeats()
    ensures Fields({}, [])
  {}

  method ParseDirection(input: string, end: nat) returns (result: Result<(bool, nat)>)
    requires end <= |input|
    ensures result == Direction(input, end)
  {
    var position := SkipSpacing(input, end);
    var desc := false;
    if position < |input| && input[position] != ',' {
      if position == end {
        return Err(InvalidParameter);
      }
      var directionStart := position;
      if !IsIdentifierStart(input[position]) {
        return Err(InvalidParameter);
      }
      position := ScanWord(input, position + 1);
      var direction := input[directionStart..position];
      if direction == "desc" {
        desc := true;
      } else if direction != "asc" {
        return Err(InvalidParameter);
      }
      position := SkipSpacing(input, position);
    }
    return Ok((desc, position));
  }

  method ParseLegacyOrderBy(input: string, maxPathDepth: int) returns (result: Result<seq<SortTerm>>)
    ensures result == OrderByOf(input, maxPathDepth)
  {
    hide PathEnd, Repeats, Direction;
    var position := SkipSpacing(input, 0);
    if position == |input| {
      return Err(InvalidParameter);
    }
    var seen := {};
    var terms: seq<SortTerm> := [];
    assert Fields({}, []) by { NothingRepeats(); }
    while true
      invariant position < |input| && Fields(seen, terms)
      invariant OrderByTerms(input, position, terms, maxPathDepth) == OrderByOf(input, maxPathDepth)
      decreases |input| - position
    {
      var end :- ScanSortPath(input, position, maxPathDepth);
      var name := input[position..end];
      if name in seen {
        return Err(InvalidParameter);
      }
      var direction :- ParseDirection(input, end);
      FieldsGrow(seen, terms, SortTerm(name, direction.0));
      seen := seen + {name};
      terms := terms + [SortTerm(name, direction.0)];
      position := direction.1;
      if position == |input| {
        return Ok(terms);
      }
      if input[position] != ',' {
        return Err(InvalidParameter);
      }
      position := SkipSpacing(input, position + 1);
      if position == |input| {
        return Err(InvalidParameter);
      }
    }
  }

  // ---- what the terms are, and what the limits mean ----

  function SegmentCount(path: string): nat { |Split('/', path)| }

  // A path is words joined by slashes, and its depth is their number.
  lemma {:induction false} PathEndSplits(input: string, pos: nat, depth: nat, maxPathDepth: int, other: int)
    requires pos <= |input| && PathEnd(input, pos, depth, maxPathDepth).Ok?
    ensures var end := PathEnd(input, pos, depth, maxPathDepth).value; var path := input[pos..end];
      && (forall k :: 0 <= k < |Split('/', path)| ==> IsValidIdentifier(Split('/', path)[k]))
      && depth + SegmentCount(path) <= maxPathDepth
      && PathEnd(input, pos, depth, other) == if depth + SegmentCount(path) <= other then Ok(end)
                                              else Err(LimitExceeded)
    decreases |input| - pos
  {
    hide Split, WordEnd;
    var word := WordEnd(input, pos + 1);
    var end := PathEnd(input, pos, depth, maxPathDepth).value;
    var head := input[pos..word];
    assert head[0] == input[pos] && forall k :: 0 < k < |head| ==> head[k] == input[pos + k];
    if word < |input| && input[word] == '/' {
      PathEndSplits(input, word + 1, depth + 1, maxPathDepth, other);
      assert input[pos..end] == head + ['/'] + input[word + 1..end];
      SplitOfPrefix('/', head, input[word + 1..end]);
    } else {
      SplitOfPrefix('/', head, "");
    }
  }

  predicate TermsFit(terms: seq<SortTerm>, from: nat, maxTerms: int, maxPathDepth: int) {
    (from < |terms| ==> |terms| <= maxTerms) && forall k :: from <= k < |terms| ==>
      SegmentCount(terms[k].field) <= maxPathDepth
  }

  /** The limits decide whether a sort is accepted, never which terms it has. */
  lemma {:induction false} SortUnderOtherLimits(input: string, pos: nat, terms: seq<SortTerm>, maxTerms: int,
                                                maxPathDepth: int, otherTerms: int, otherDepth: int)
    requires pos < |input| && SortTerms(input, pos, terms, maxTerms, maxPathDepth).Ok?
    ensures var all := SortTerms(input, pos, terms, maxTerms, maxPathDepth).value;
      && terms < all
      && SortTerms(input, pos, terms, otherTerms, otherDepth) ==
           if TermsFit(all, |terms|, otherTerms, otherDepth) then Ok(all) else Err(LimitExceeded)
    decreases |input| - pos
  {
    hide PathEnd, Repeats, Split;
    var start := if input[pos] == '-' then pos + 1 else pos;
    PathEndSplits(input, start, 0, maxPathDepth, otherDepth);
    var end := PathEnd(input, start, 0, maxPathDepth).value;
    var longer := terms + [SortTerm(input[start..end], input[pos] == '-')];
    var all := SortTerms(input, pos, terms, maxTerms, maxPathDepth).value;
    var next := AfterTerm(input, SkipWhitespace(input, end)).value;
    if next.Some? {
      SortUnderOtherLimits(input, next.value, longer, maxTerms, maxPathDepth, otherTerms, otherDepth);
    }
    assert longer[|terms|] == all[|terms|];
  }

  lemma {:induction false} OrderByUnderOtherLimits(input: string, pos: nat, terms: seq<SortTerm>, maxPathDepth: int,
                                                   otherDepth: int)
    requires pos < |input| && OrderByTerms(input, pos, terms, maxPathDepth).Ok?
    ensures var all := OrderByTerms(input, pos, terms, maxPathDepth).value;
      && terms < all
      && OrderByTerms(input, pos, terms, otherDepth) ==
           if TermsFit(all, |terms|, |all|, otherDepth) then Ok(all) else Err(LimitExceeded)
    decreases |input| - pos
  {
    hide PathEnd, Repeats, Split, Direction;
    PathEndSplits(input, pos, 0, maxPathDepth, otherDepth);
    var end := PathEnd(input, pos, 0, maxPathDepth).value;
    var direction := Direction(input, end).value;
    var longer := terms + [SortTerm(input[pos..end], direction.0)];
    var all := OrderByTerms(input, pos, terms, maxPathDepth).value;
    var next := AfterTerm(input, direction.1).value;
    if next.Some? {
      OrderByUnderOtherLimits(input, next.value, longer, maxPathDepth, otherDepth);
    }
    assert longer[|terms|] == all[|terms|];
  }

  // ---- printing ----

  function TermText(term: SortTerm): string { (if term.desc then "-" else "") + term.field }

  function SortText(terms: seq<SortTerm>): string {
    if terms == [] then ""
    else if |terms| == 1 then TermText(terms[0]) else TermText(terms[0]) + "," + SortText(terms[1..])
  }

  ghost predicate IsPath(path: string) {
    forall k :: 0 <= k < |Split('/', path)| ==> IsValidIdentifier(Split('/', path)[k])
  }

  ghost predicate GoodTerms(terms: seq<SortTerm>, maxPathDepth: int) {
    && (forall k :: 0 <= k < |terms| ==> IsPath(terms[k].field) && SegmentCount(terms[k].field) <= maxPathDepth)
    && forall j, k :: 0 <= j < k < |terms| ==> terms[j].field != terms[k].field
  }

  // What may follow a path without continuing it.
  predicate EndsPath(tail: string) { tail == "" || tail[0] == ',' || IsWhitespace(tail[0]) }

  // Scanning a path written at |front| finds its end.
  lemma {:induction false} PathIsScanned(front: string, words: seq<string>, tail: string, depth: nat, maxPathDepth: int)
    requires words != [] && (forall k :: 0 <= k < |words| ==> IsValidIdentifier(words[k]))
    requires depth + |words| <= maxPathDepth && EndsPath(tail)
    ensures var input := front + Join('/', words) + tail;
      PathEnd(input, |front|, depth, maxPathDepth) == Ok(|front| + |Join('/', words)|)
    decreases |words|
  {
    hide PathEnd;
    var input := front + Join('/', words) + tail;
    var word, end := words[0], |front| + |words[0]|;
    assert forall i :: 0 <= i < |word| ==> input[|front| + i] == word[i];
    if |words| == 1 {
      assert tail != "" ==> input[end] == tail[0];
      WordEndAt(input, |front| + 1, end);
      PathStep(input, |front|, depth, maxPathDepth);
    } else {
      assert input == (front + word + "/") + Join('/', words[1..]) + tail;
      assert input[end] == '/';
      WordEndAt(input, |front| + 1, end);
      PathIsScanned(front + word + "/", words[1..], tail, depth + 1, maxPathDepth);
      PathStep(input, |front|, depth, maxPathDepth);
    }
  }

  lemma PathStep(input: string, pos: nat, depth: nat, maxPathDepth: int)
    requires pos < |input| && IsIdentifierStart(input[pos]) && depth + 1 <= maxPathDepth
    ensures var end := WordEnd(input, pos + 1);
      PathEnd(input, pos, depth, maxPathDepth) ==
        if end < |input| && input[end] == '/' then PathEnd(input, end + 1, depth + 1, maxPathDepth) else Ok(end)
  {}

  lemma TermStart(term: SortTerm, front: string, tail: string)
    requires IsPath(term.field)
    ensures var input := front + TermText(term) + tail;
      |front| < |input| && !IsWhitespace(input[|front|]) && (input[|front|] == '-' <==> term.desc)
  {
    var words := Split('/', term.field);
    assert words[0] != "" && term.field[0] == words[0][0];
    var input := front + TermText(term) + tail;
    assert input[|front|] == TermText(term)[0];
  }

  lemma TermIsScanned(term: SortTerm, front: string, tail: string, maxPathDepth: int)
    requires IsPath(term.field) && SegmentCount(term.field) <= maxPathDepth && (tail == "" || tail[0] == ',')
    ensures var input := front + TermText(term) + tail; var start := if term.desc then |front| + 1 else |front|;
      var end := |front| + |TermText(term)|;
      && PathEnd(input, start, 0, maxPathDepth) == Ok(end) && input[start..end] == term.field
      && SkipWhitespace(input, end) == end && (tail != "" ==> input[end] == ',')
  {
    hide PathEnd, Split;
    var lead := front + if term.desc then "-" else "";
    var input := front + TermText(term) + tail;
    assert input == lead + term.field + tail;
    PathIsScanned(lead, Split('/', term.field), tail, 0, maxPathDepth);
    assert tail != "" ==> input[|front| + |TermText(term)|] == tail[0];
  }

  lemma {:induction false} SortIsParsed(front: string, before: seq<SortTerm>, terms: seq<SortTerm>, maxTerms: int,
                                        maxPathDepth: int)
    requires terms != [] && GoodTerms(before + terms, maxPathDepth) && |before + terms| <= maxTerms
    ensures |front| < |front + SortText(terms)| && !IsWhitespace((front + SortText(terms))[|front|])
    ensures SortTerms(front + SortText(terms), |front|, before, maxTerms, maxPathDepth) == Ok(before + terms)
    decreases |terms|
  {
    hide PathEnd, Split, TermText, IsPath, SortTerms, SortText, GoodTerms, AfterTerm;
    SortTextStep(terms);
    FirstGood(before, terms, maxPathDepth);
    var term, rest := terms[0], terms[1..];
    var tail := if rest == [] then "" else "," + SortText(rest);
    var input := front + SortText(terms);
    assert input == front + TermText(term) + tail;
    TermStart(term, front, tail);
    TermIsScanned(term, front, tail, maxPathDepth);
    SortTermsStep(input, |front|, before, term, |front| + |TermText(term)|, maxTerms, maxPathDepth);
    if rest == [] {
      AfterLast(input);
      assert before + terms == before + [term];
    } else {
      var consumed := front + TermText(term) + ",";
      assert tail == "," + SortText(rest) && input == consumed + SortText(rest);
      assert before + terms == (before + [term]) + rest;
      SortIsParsed(consumed, before + [term], rest, maxTerms, maxPathDepth);
      AfterComma(input, |front| + |TermText(term)|);
    }
  }

  lemma FirstGood(before: seq<SortTerm>, terms: seq<SortTerm>, maxPathDepth: int)
    requires terms != [] && GoodTerms(before + terms, maxPathDepth)
    ensures !Repeats(before, terms[0].field) && IsPath(terms[0].field) && SegmentCount(terms[0].field) <= maxPathDepth
  {
    hide IsPath;
    var all := before + terms;
    assert all[|before|] == terms[0];
    forall k | 0 <= k < |before| ensures before[k].field != terms[0].field {
      assert all[k] == before[k];
    }
  }

  lemma SortTextStep(terms: seq<SortTerm>)
    requires terms != []
    ensures SortText(terms) == TermText(terms[0]) + if terms[1..] == [] then "" else "," + SortText(terms[1..])
  {
    assert TermText(terms[0]) + "" == TermText(terms[0]);
  }

  lemma SortTermsStep(input: string, pos: nat, before: seq<SortTerm>, term: SortTerm, end: nat, maxTerms: int,
                      maxPathDepth: int)
    requires pos < |input| && (input[pos] == '-' <==> term.desc)
    requires var start := if term.desc then pos + 1 else pos;
      PathEnd(input, start, 0, maxPathDepth) == Ok(end) && input[start..end] == term.field
    requires !Repeats(before, term.field) && |before| + 1 <= maxTerms && SkipWhitespace(input, end) == end
    ensures var next := AfterTerm(input, end);
      var spec := SortTerms(input, pos, before, maxTerms, maxPathDepth);
      && (next.Ok? && next.value.None? ==> spec == Ok(before + [term]))
      && (next.Ok? && next.value.Some? ==>
          spec == SortTerms(input, next.value.value, before + [term], maxTerms, maxPathDepth))
  {
    hide PathEnd, Repeats;
  }

  lemma AfterLast(input: string)
    ensures AfterTerm(input, |input|) == Ok(None)
  {}

  lemma AfterComma(input: string, pos: nat)
    requires pos + 1 < |input| && input[pos] == ',' && !IsWhitespace(input[pos + 1])
    ensures AfterTerm(input, pos) == Ok(Some(pos + 1))
  {}

  /** Parsing a printed sort gives its terms back. */
  lemma SortRoundTrip(terms: seq<SortTerm>, maxTerms: int, maxPathDepth: int)
    requires terms != [] && GoodTerms(terms, maxPathDepth) && |terms| <= maxTerms
    ensures SortOf(SortText(terms), maxTerms, maxPathDepth) == Ok(terms)
  {
    hide SortTerms, SortText;
    assert [] + terms == terms && "" + SortText(terms) == SortText(terms);
    SortIsParsed("", [], terms, maxTerms, maxPathDepth);
  }

  // ---- printing in the legacy form ----

  // Ascending terms may name their direction or leave it out.
  function DirectionText(desc: bool, spelled: bool): string {
    if desc then " desc" else if spelled then " asc" else ""
  }

  function OrderText(term: SortTerm, spelled: bool): string { term.field + DirectionText(term.desc, spelled) }

  function OrderByText(terms: seq<SortTerm>, spelled: bool): string {
    if terms == [] then ""
    else OrderText(terms[0], spelled) + if terms[1..] == [] then "" else "," + OrderByText(terms[1..], spelled)
  }

  lemma FieldStart(term: SortTerm, front: string, tail: string)
    requires IsPath(term.field)
    ensures var input := front + term.field + tail; |front| < |input| && !IsWhitespace(input[|front|])
  {
    var words := Split('/', term.field);
    assert words[0] != "" && term.field[0] == words[0][0];
    var input := front + term.field + tail;
    assert input[|front|] == term.field[0];
  }

  lemma FieldIsScanned(term: SortTerm, front: string, tail: string, maxPathDepth: int)
    requires IsPath(term.field) && SegmentCount(term.field) <= maxPathDepth && EndsPath(tail)
    ensures var input := front + term.field + tail; var end := |front| + |term.field|;
      PathEnd(input, |front|, 0, maxPathDepth) == Ok(end) && input[|front|..end] == term.field
  {
    hide PathEnd, Split;
    PathIsScanned(front, Split('/', term.field), tail, 0, maxPathDepth);
  }

  lemma NoDirection(input: string, pos: nat)
    requires pos <= |input| && SkipWhitespace(input, pos) == pos && (pos == |input| || input[pos] == ',')
    ensures Direction(input, pos) == Ok((false, pos))
  {}

  lemma DirectionStep(input: string, pos: nat, word: nat, end: nat)
    requires pos < word < |input| && SkipWhitespace(input, pos) == word && IsIdentifierStart(input[word])
    requires WordEnd(input, word + 1) == end && SkipWhitespace(input, end) == end
    requires input[word..end] == "asc" || input[word..end] == "desc"
    ensures Direction(input, pos) == Ok((input[word..end] == "desc", end))
  {
    hide SkipWhitespace, WordEnd;
  }

  // The direction words, read where the path before them ends.
  lemma DirectionIsRead(front: string, desc: bool, spelled: bool, tail: string)
    requires tail == "" || tail[0] == ','
    ensures var input := front + DirectionText(desc, spelled) + tail;
      Direction(input, |front|) == Ok((desc, |front| + |DirectionText(desc, spelled)|))
  {
    hide Direction, WordEnd;
    var text := DirectionText(desc, spelled);
    var input := front + text + tail;
    var end := |front| + |text|;
    assert forall i :: 0 <= i < |text| ==> input[|front| + i] == text[i];
    assert tail != "" ==> input[end] == tail[0];
    assert SkipWhitespace(input, end) == end;
    if text == "" {
      assert front + text == front;
      NoDirection(input, end);
    } else {
      var word := |front| + 1;
      assert SkipWhitespace(input, word) == word && SkipWhitespace(input, |front|) == word;
      WordEndAt(input, word + 1, end);
      assert input[word..end] == text[1..];
      DirectionStep(input, |front|, word, end);
    }
  }

  lemma OrderByStep(input: string, pos: nat, before: seq<SortTerm>, term: SortTerm, end: nat, stop: nat,
                    maxPathDepth: int)
    requires pos < |input| && PathEnd(input, pos, 0, maxPathDepth) == Ok(end) && input[pos..end] == term.field
    requires Direction(input, end) == Ok((term.desc, stop)) && !Repeats(before, term.field)
    ensures var next := AfterTerm(input, stop); var spec := OrderByTerms(input, pos, before, maxPathDepth);
      && (next.Ok? && next.value.None? ==> spec == Ok(before + [term]))
      && (next.Ok? && next.value.Some? ==> spec == OrderByTerms(input, next.value.value, before + [term], maxPathDepth))
  {
    hide PathEnd, Repeats, Direction;
  }

  // One printed term, and what the parser makes of it.
  lemma TermIsRead(front: string, before: seq<SortTerm>, term: SortTerm, spelled: bool, tail: string, maxPathDepth: int)
    requires IsPath(term.field) && SegmentCount(term.field) <= maxPathDepth && !Repeats(before, term.field)
    requires tail == "" || tail[0] == ','
    ensures var input := front + OrderText(term, spelled) + tail;
      var stop := |front| + |OrderText(term, spelled)|; var next := AfterTerm(input, stop);
      && |front| < |input| && !IsWhitespace(input[|front|]) && (tail != "" ==> input[stop] == ',')
      && var spec := OrderByTerms(input, |front|, before, maxPathDepth);
         && (next.Ok? && next.value.None? ==> spec == Ok(before + [term]))
         && (next.Ok? && next.value.Some? ==>
             spec == OrderByTerms(input, next.value.value, before + [term], maxPathDepth))
  {
    hide PathEnd, Split, IsPath, OrderByTerms, AfterTerm, Direction, DirectionText, Repeats;
    var direction := DirectionText(term.desc, spelled);
    var input := front + OrderText(term, spelled) + tail;
    var end := |front| + |term.field|;
    assert input == front + term.field + (direction + tail);
    assert input == (front + term.field) + direction + tail;
    assert tail != "" ==> input[end + |direction|] == tail[0];
    DirectionStart(term.desc, spelled, tail);
    FieldStart(term, front, direction + tail);
    FieldIsScanned(term, front, direction + tail, maxPathDepth);
    DirectionIsRead(front + term.field, term.desc, spelled, tail);
    OrderByStep(input, |front|, before, term, end, end + |direction|, maxPathDepth);
  }

  lemma OrderByTextStep(terms: seq<SortTerm>, spelled: bool)
    requires terms != []
    ensures OrderByText(terms, spelled) ==
      OrderText(terms[0], spelled) + if terms[1..] == [] then "" else "," + OrderByText(terms[1..], spelled)
  {
    hide OrderText;
  }

  lemma {:induction false} OrderByIsParsed(front: string, before: seq<SortTerm>, terms: seq<SortTerm>, spelled: bool,
                                           maxPathDepth: int)
    requires terms != [] && GoodTerms(before + terms, maxPathDepth)
    ensures var input := front + OrderByText(terms, spelled);
      && |front| < |input| && !IsWhitespace(input[|front|])
      && OrderByTerms(input, |front|, before, maxPathDepth) == Ok(before + terms)
    decreases |terms|
  {
    hide PathEnd, IsPath, OrderByTerms, OrderByText, GoodTerms, AfterTerm, OrderText, Repeats;
    OrderByTextStep(terms, spelled);
    FirstGood(before, terms, maxPathDepth);
    var term, rest := terms[0], terms[1..];
    var text := OrderText(term, spelled);
    var tail := if rest == [] then "" else "," + OrderByText(rest, spelled);
    var input := front + OrderByText(terms, spelled);
    assert input == front + text + tail;
    TermIsRead(front, before, term, spelled, tail, maxPathDepth);
    if rest == [] {
      AfterLast(input);
      assert before + terms == before + [term];
    } else {
      var consumed := front + text + ",";
      assert input == consumed + OrderByText(rest, spelled);
      assert before + terms == (before + [term]) + rest;
      OrderByIsParsed(consumed, before + [term], rest, spelled, maxPathDepth);
      AfterComma(input, |front| + |text|);
    }
  }

  lemma DirectionStart(desc: bool, spelled: bool, tail: string)
    requires tail == "" || tail[0] == ','
    ensures EndsPath(DirectionText(desc, spelled) + tail)
  {}

  /** Parsing a printed orderby gives its terms back, with or without the word asc. */
  lemma OrderByRoundTrip(terms: seq<SortTerm>, spelled: bool, maxPathDepth: int)
    requires terms != [] && GoodTerms(terms, maxPathDepth)
    ensures OrderByOf(OrderByText(terms, spelled), maxPathDepth) == Ok(terms)
  {
    hide OrderByTerms, OrderByText;
    assert [] + terms == terms && "" + OrderByText(terms, spelled) == OrderByText(terms, spelled);
    OrderByIsParsed("", [], terms, spelled, maxPathDepth);
  }
}
