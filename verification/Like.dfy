/** SQL `LIKE ... ESCAPE '!'` and the literal patterns gorm_compiler.go builds.

    `same(t, p)` says that the database's collation lets the text character t
    match the pattern character p, so case-insensitive LIKE is covered too. */
module Like {
  import opened Strings

  type Folding = (char, char) -> bool

  const ESCAPE := '!'

  /** LIKE as SQL defines it: '%' any run, '_' one character, '!' quotes the next. */
  predicate LikeMatch(same: Folding, text: string, pattern: string)
    decreases |pattern| + |text|
  {
    if pattern == [] then text == []
    else if pattern[0] == ESCAPE then
      |pattern| > 1 && text != [] && same(text[0], pattern[1]) && LikeMatch(same, text[1..], pattern[2..])
    else if pattern[0] == '%' then
      LikeMatch(same, text, pattern[1..]) || (text != [] && LikeMatch(same, text[1..], pattern))
    else
      text != [] && (pattern[0] == '_' || same(text[0], pattern[0])) && LikeMatch(same, text[1..], pattern[1..])
  }

  /** value occurs in text at offset, character by character. */
  ghost predicate OccursAt(same: Folding, text: string, value: string, offset: nat) {
    offset + |value| <= |text| && forall k :: 0 <= k < |value| ==> same(text[offset + k], value[k])
  }

  ghost predicate Contains(same: Folding, text: string, value: string) {
    exists offset: nat :: OccursAt(same, text, value, offset)
  }

  ghost predicate StartsWith(same: Folding, text: string, value: string) {
    OccursAt(same, text, value, 0)
  }

  ghost predicate EndsWith(same: Folding, text: string, value: string) {
    |value| <= |text| && OccursAt(same, text, value, |text| - |value|)
  }

  predicate NeedsEscape(c: char) { c == '%' || c == '_' || c == ESCAPE }

  function Escaped(value: string): string {
    if value == [] then []
    else (if NeedsEscape(value[0]) then [ESCAPE, value[0]] else [value[0]]) + Escaped(value[1..])
  }

  /** The value rune by rune, escaped: a malformed byte goes into the pattern as U+FFFD. */
  function LikePattern(value: string, prefix: bool, suffix: bool): string {
    (if prefix then "%" else "") + Escaped(Repaired(value)) + (if suffix then "%" else "")
  }

  lemma {:induction false} EscapedAppend(a: string, b: string)
    ensures Escaped(a + b) == Escaped(a) + Escaped(b)
  {
    if a == [] {
      assert a + b == b;
    } else {
      EscapedAppend(a[1..], b);
      assert (a + b)[1..] == a[1..] + b && (a + b)[0] == a[0];
      var head := if NeedsEscape(a[0]) then [ESCAPE, a[0]] else [a[0]];
      assert Escaped(a + b) == head + Escaped(a[1..] + b);
      assert head + (Escaped(a[1..]) + Escaped(b)) == (head + Escaped(a[1..])) + Escaped(b);
    }
  }

  // Escaping looks at ASCII only, so it leaves longer runes alone.
  lemma EscapedRune(text: string)
    requires text != ""
    ensures Escaped(FirstRune(text)) == (if NeedsEscape(text[0]) then [ESCAPE] else []) + FirstRune(text)
  {
    var rune := FirstRune(text);
    if text[0] < 0x80 as char {
      assert rune[1..] == [];
    } else {
      NothingEscaped(rune) by { hide Escaped; HighRune(text); }
      assert [] + rune == rune;
    }
  }

  lemma HighRune(text: string)
    requires text != "" && text[0] >= 0x80 as char
    ensures forall k :: 0 <= k < |FirstRune(text)| ==> !NeedsEscape(FirstRune(text)[k])
  {
    var rune := FirstRune(text);
    assert |rune| > 0 && rune[0] >= 0x80 as char;
    assert |rune| > 1 ==> rune[1] >= 0x80 as char;
    assert |rune| > 2 ==> rune[2] >= 0x80 as char;
    assert |rune| > 3 ==> rune[3] >= 0x80 as char;
  }

  lemma {:induction false} NothingEscaped(text: string)
    requires forall k :: 0 <= k < |text| ==> !NeedsEscape(text[k])
    ensures Escaped(text) == text
  {
    if text != "" {
      NothingEscaped(text[1..]);
    }
  }

  lemma Regroup(a: string, b: string, c: string, d: string)
    ensures a + (b + c + d) == a + b + c + d
  {}

  lemma FirstRuneAt(value: string, pos: nat)
    requires pos < |value|
    ensures var size := if value[pos] < 0x80 as char then 1 else RuneSize(value, pos);
      && FirstSize(value[pos..]) == size && value[pos..][size..] == value[pos + size..]
      && FirstRune(value[pos..]) ==
           if value[pos] < 0x80 as char then [value[pos]] else if size == 1 then REPLACEMENT else value[pos..pos + size]
  {
    hide RuneSize;
    RuneSizeOfTail(value, pos);
    var rest := value[pos..];
    assert rest[..FirstSize(rest)] == value[pos..pos + FirstSize(rest)];
  }

  lemma EscapedRepaired(text: string)
    requires text != ""
    ensures Escaped(Repaired(text)) ==
      (if NeedsEscape(text[0]) then [ESCAPE] else []) + FirstRune(text) + Escaped(Repaired(text[FirstSize(text)..]))
  {
    hide Escaped, NeedsEscape, FirstRune, FirstSize;
    EscapedRune(text);
    EscapedAppend(FirstRune(text), Repaired(text[FirstSize(text)..]));
  }

  /** literalLikePattern: the loop over the value's runes and its builder. */
  method LiteralLikePattern(value: string, prefix: bool, suffix: bool) returns (pattern: string)
    ensures pattern == LikePattern(value, prefix, suffix)
  {
    hide RuneSize, Escaped, NeedsEscape, Repaired, FirstRune, FirstSize;
    var builder := [];
    if prefix {
      builder := builder + ['%'];
    }
    ghost var start := builder;
    var pos := 0;
    assert value[0..] == value;
    while pos < |value|
      invariant pos <= |value|
      invariant builder + Escaped(Repaired(value[pos..])) == start + Escaped(Repaired(value))
      decreases |value| - pos
    {
      ghost var rest, before := value[pos..], builder;
      EscapedRepaired(rest);
      FirstRuneAt(value, pos);
      var size := if value[pos] < 0x80 as char then 1 else RuneSize(value, pos);
      var rune := if value[pos] < 0x80 as char then [value[pos]]
                  else if size == 1 then REPLACEMENT else value[pos..pos + size];
      ghost var escape := if NeedsEscape(value[pos]) then [ESCAPE] else [];
      Regroup(before, escape, rune, Escaped(Repaired(rest[size..])));
      if NeedsEscape(value[pos]) {
        builder := builder + [ESCAPE];
      }
      assert builder == before + escape;
      builder := builder + rune;
      pos := pos + size;
    }
    assert value[pos..] == "" && Escaped(Repaired("")) == "" by { NothingEscaped(""); RepairedMeans(""); }
    assert builder == start + Escaped(Repaired(value));
    if suffix {
      builder := builder + ['%'];
    }
    return builder;
  }

  /** An escaped value consumes exactly its own characters; `rest` sees what is left. */
  lemma {:induction false} EscapedConsumes(same: Folding, text: string, value: string, rest: string)
    ensures LikeMatch(same, text, Escaped(value) + rest) <==>
            StartsWith(same, text, value) && LikeMatch(same, text[|value|..], rest)
  {
    var pattern := Escaped(value) + rest;
    if value == [] {
      assert pattern == rest && text[0..] == text;
    } else if text == [] {
    } else {
      var tail := Escaped(value[1..]) + rest;
      assert (if NeedsEscape(value[0]) then pattern[2..] else pattern[1..]) == tail;
      EscapedConsumes(same, text[1..], value[1..], rest);
      var here := same(text[0], value[0]);
      assert LikeMatch(same, text, pattern) <==> here && LikeMatch(same, text[1..], tail);
      assert StartsWith(same, text, value) <==> here && StartsWith(same, text[1..], value[1..]) by {
        if here && StartsWith(same, text[1..], value[1..]) {
          forall k | 0 <= k < |value| ensures same(text[0 + k], value[k]) {
            assert k > 0 ==> same(text[1..][0 + (k - 1)], value[1..][k - 1]);
          }
        }
        if StartsWith(same, text, value) {
          assert same(text[0 + 0], value[0]);
          forall k | 0 <= k < |value| - 1 ensures same(text[1..][0 + k], value[1..][k]) {
            assert same(text[0 + (k + 1)], value[k + 1]);
          }
        }
      }
      if StartsWith(same, text, value) {
        assert text[1..][|value| - 1..] == text[|value|..];
      }
    }
  }

  lemma {:induction false} PercentMatchesAll(same: Folding, text: string)
    ensures LikeMatch(same, text, "%")
  {
    if text != [] {
      PercentMatchesAll(same, text[1..]);
    } else {
      assert LikeMatch(same, text, "%"[1..]);
    }
  }

  /** A leading '%' lets the rest of the pattern start at any offset. */
  lemma {:induction false} PercentSkips(same: Folding, text: string, rest: string)
    ensures LikeMatch(same, text, "%" + rest) <==>
            exists offset: nat :: offset <= |text| && LikeMatch(same, text[offset..], rest)
  {
    var pattern := "%" + rest;
    assert pattern[1..] == rest && text[0..] == text;
    if text != [] {
      PercentSkips(same, text[1..], rest);
      forall offset: nat | offset < |text| ensures text[1..][offset..] == text[offset + 1..] {}
      if LikeMatch(same, text[1..], pattern) {
        var offset: nat :| offset <= |text[1..]| && LikeMatch(same, text[1..][offset..], rest);
        assert LikeMatch(same, text[offset + 1..], rest);
      }
      if offset: nat :| 0 < offset <= |text| && LikeMatch(same, text[offset..], rest) {
        assert LikeMatch(same, text[1..][offset - 1..], rest);
      }
    }
  }

  lemma StartsWithTail(same: Folding, text: string, value: string, offset: nat)
    requires offset <= |text|
    ensures StartsWith(same, text[offset..], value) <==> OccursAt(same, text, value, offset)
  {
    var tail := text[offset..];
    if StartsWith(same, tail, value) {
      forall k | 0 <= k < |value| ensures same(text[offset + k], value[k]) {
        assert same(tail[0 + k], value[k]);
      }
    }
    if OccursAt(same, text, value, offset) {
      forall k | 0 <= k < |value| ensures same(tail[0 + k], value[k]) {
        assert same(text[offset + k], value[k]);
      }
    }
  }

  // What the three patterns match, for a value that needs no repair.
  lemma ContainsMatch(same: Folding, text: string, value: string)
    ensures LikeMatch(same, text, "%" + Escaped(value) + "%") <==> Contains(same, text, value)
  {
    var rest := Escaped(value) + "%";
    assert "%" + Escaped(value) + "%" == "%" + rest;
    PercentSkips(same, text, rest);
    forall offset: nat | offset <= |text|
      ensures LikeMatch(same, text[offset..], rest) <==> OccursAt(same, text, value, offset)
    {
      EscapedConsumes(same, text[offset..], value, "%");
      StartsWithTail(same, text, value, offset);
      if OccursAt(same, text, value, offset) {
        PercentMatchesAll(same, text[offset..][|value|..]);
      }
    }
  }

  lemma StartsWithMatch(same: Folding, text: string, value: string)
    ensures LikeMatch(same, text, Escaped(value) + "%") <==> StartsWith(same, text, value)
  {
    EscapedConsumes(same, text, value, "%");
    if StartsWith(same, text, value) {
      PercentMatchesAll(same, text[|value|..]);
    }
  }

  lemma EndsWithMatch(same: Folding, text: string, value: string)
    ensures LikeMatch(same, text, "%" + Escaped(value)) <==> EndsWith(same, text, value)
  {
    var rest := Escaped(value);
    assert rest + "" == rest;
    PercentSkips(same, text, rest);
    forall offset: nat | offset <= |text|
      ensures LikeMatch(same, text[offset..], rest) <==>
              offset + |value| == |text| && OccursAt(same, text, value, offset)
    {
      EscapedConsumes(same, text[offset..], value, "");
      StartsWithTail(same, text, value, offset);
    }
    if EndsWith(same, text, value) {
      assert LikeMatch(same, text[|text| - |value|..], rest);
    }
  }

  // ---- exactly the valid values ----

  lemma Patterns(value: string)
    ensures LikePattern(value, true, true) == "%" + Escaped(Repaired(value)) + "%"
    ensures LikePattern(value, false, true) == Escaped(Repaired(value)) + "%"
    ensures LikePattern(value, true, false) == "%" + Escaped(Repaired(value))
  {}

  ghost predicate Reflexive(same: Folding) { forall c :: same(c, c) }

  lemma OccursInItself(same: Folding, value: string)
    requires Reflexive(same)
    ensures OccursAt(same, value, value, 0) && StartsWith(same, value, value) && EndsWith(same, value, value)
    ensures Contains(same, value, value)
  {}

  /** The pattern of `contains` matches exactly the texts that contain the value if and only
      if the value is valid UTF-8; an invalid one does not even match itself. */
  lemma ContainsPatternExact(same: Folding, value: string)
    requires Reflexive(same)
    ensures (forall text :: LikeMatch(same, text, LikePattern(value, true, true)) <==> Contains(same, text, value)) <==>
            ValidUtf8(value)
  {
    hide LikePattern, Escaped, LikeMatch;
    RepairedMeans(value);
    Patterns(value);
    forall text
      ensures LikeMatch(same, text, LikePattern(value, true, true)) <==> Contains(same, text, Repaired(value))
    {
      ContainsMatch(same, text, Repaired(value));
    }
    OccursInItself(same, value);
  }

  lemma StartsWithPatternExact(same: Folding, value: string)
    requires Reflexive(same)
    ensures (forall text :: LikeMatch(same, text, LikePattern(value, false, true)) <==>
             StartsWith(same, text, value)) <==>
            ValidUtf8(value)
  {
    hide LikePattern, Escaped, LikeMatch;
    RepairedMeans(value);
    Patterns(value);
    forall text
      ensures LikeMatch(same, text, LikePattern(value, false, true)) <==> StartsWith(same, text, Repaired(value))
    {
      StartsWithMatch(same, text, Repaired(value));
    }
    OccursInItself(same, value);
  }

  lemma EndsWithPatternExact(same: Folding, value: string)
    requires Reflexive(same)
    ensures (forall text :: LikeMatch(same, text, LikePattern(value, true, false)) <==>
             EndsWith(same, text, value)) <==>
            ValidUtf8(value)
  {
    hide LikePattern, Escaped, LikeMatch;
    RepairedMeans(value);
    Patterns(value);
    forall text
      ensures LikeMatch(same, text, LikePattern(value, true, false)) <==> EndsWith(same, text, Repaired(value))
    {
      EndsWithMatch(same, text, Repaired(value));
    }
    OccursInItself(same, value);
  }

  // For a valid value whatever the folding.
  lemma ValidPatternsExact(same: Folding, text: string, value: string)
    requires ValidUtf8(value)
    ensures LikeMatch(same, text, LikePattern(value, true, true)) <==> Contains(same, text, value)
    ensures LikeMatch(same, text, LikePattern(value, false, true)) <==> StartsWith(same, text, value)
    ensures LikeMatch(same, text, LikePattern(value, true, false)) <==> EndsWith(same, text, value)
  {
    hide LikePattern, Escaped, LikeMatch;
    RepairedMeans(value);
    Patterns(value);
    ContainsMatch(same, text, value);
    StartsWithMatch(same, text, value);
    EndsWithMatch(same, text, value);
  }

  // An invalid value occurs in itself at either end, and none of its patterns says so.
  lemma InvalidPatternMissesItself(same: Folding, value: string)
    requires Reflexive(same) && !ValidUtf8(value)
    ensures Contains(same, value, value) && !LikeMatch(same, value, LikePattern(value, true, true))
    ensures StartsWith(same, value, value) && !LikeMatch(same, value, LikePattern(value, false, true))
    ensures EndsWith(same, value, value) && !LikeMatch(same, value, LikePattern(value, true, false))
  {
    hide LikePattern, Escaped, LikeMatch;
    RepairedMeans(value);
    Patterns(value);
    ContainsMatch(same, value, Repaired(value));
    StartsWithMatch(same, value, Repaired(value));
    EndsWithMatch(same, value, Repaired(value));
    OccursInItself(same, value);
  }

  const MALFORMED: string := [0xFF as char]

  /** One malformed byte: the text contains it, the pattern made of it does not match. */
  lemma MalformedByteIsMissed(same: Folding)
    requires Reflexive(same)
    ensures Contains(same, MALFORMED, MALFORMED) && !LikeMatch(same, MALFORMED, LikePattern(MALFORMED, true, true))
  {
    assert !ValidUtf8(MALFORMED);
    InvalidPatternMissesItself(same, MALFORMED);
  }
}
