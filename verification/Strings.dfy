/** Byte strings as Go sees them: a char stands for one byte. Separator-joined
    text, decimal numerals, and the identifier rules of lexer.go and schema.go. */
module Strings {
  predicate IsDigit(c: char) { '0' <= c <= '9' }

  predicate IsIdentifierStart(c: char) { c == '_' || 'a' <= c <= 'z' || 'A' <= c <= 'Z' }

  predicate IsIdentifierContinue(c: char) { IsIdentifierStart(c) || IsDigit(c) }

  predicate IsWhitespace(c: char) { c == ' ' || c == '\t' || c == '\r' || c == '\n' }

  predicate IsValidIdentifier(name: string) {
    name != "" && IsIdentifierStart(name[0]) && forall i :: 1 <= i < |name| ==> IsIdentifierContinue(name[i])
  }

  const KEYWORDS: set<string> := {
    "true", "false", "eq", "ne", "gt", "gte", "lt", "lte", "contains", "startswith",
    "endswith", "in", "is", "null", "not", "and", "or", "any", "all"}

  predicate IsReservedName(name: string) { name in KEYWORDS || name == "asc" || name == "desc" }

  predicate IsPublicName(name: string) { IsValidIdentifier(name) && !IsReservedName(name) }

  // ---- UTF-8 ----

  predicate Continuation(input: string, pos: nat, low: int, high: int) {
    pos < |input| && low <= input[pos] as int <= high
  }

  /** utf8.DecodeRuneInString's size for a lead byte of 0x80 or more; 1 is an encoding error. */
  function RuneSize(input: string, pos: nat): (size: nat)
    requires pos < |input|
    ensures 1 <= size <= 4 && pos + size <= |input|
  {
    var c := input[pos] as int;
    var low := if c == 0xE0 then 0xA0 else if c == 0xF0 then 0x90 else 0x80;
    var high := if c == 0xED then 0x9F else if c == 0xF4 then 0x8F else 0xBF;
    if c < 0xC2 || c > 0xF4 || !Continuation(input, pos + 1, low, high) then 1
    else if c < 0xE0 then 2
    else if !Continuation(input, pos + 2, 0x80, 0xBF) then 1
    else if c < 0xF0 then 3
    else if !Continuation(input, pos + 3, 0x80, 0xBF) then 1
    else 4
  }

  /** utf8.ValidString */
  predicate ValidUtf8(text: string) {
    if text == "" then true
    else if text[0] < 0x80 as char then ValidUtf8(text[1..])
    else RuneSize(text, 0) > 1 && ValidUtf8(text[RuneSize(text, 0)..])
  }

  // The bytes of U+FFFD.
  const REPLACEMENT: string := [0xEF as char, 0xBF as char, 0xBD as char]

  // What WriteRune writes for the rune at the front of text that range yields.
  function FirstRune(text: string): string
    requires text != ""
  {
    if text[0] < 0x80 as char then [text[0]]
    else if RuneSize(text, 0) == 1 then REPLACEMENT
    else text[..RuneSize(text, 0)]
  }

  function FirstSize(text: string): (size: nat)
    requires text != ""
    ensures 1 <= size <= |text|
  {
    if text[0] < 0x80 as char then 1 else RuneSize(text, 0)
  }

  /** A text read rune by rune and written again: malformed bytes come out as U+FFFD. */
  function Repaired(text: string): string {
    if text == "" then "" else FirstRune(text) + Repaired(text[FirstSize(text)..])
  }

  /** Repairing keeps exactly the valid texts, and makes every other one longer. */
  lemma {:induction false} RepairedMeans(text: string)
    ensures if ValidUtf8(text) then Repaired(text) == text else |Repaired(text)| > |text|
    decreases |text|
  {
    hide RuneSize;
    if text != "" {
      var size := FirstSize(text);
      RepairedMeans(text[size..]);
      assert text == text[..size] + text[size..];
    }
  }

  lemma RuneSizeOfTail(text: string, pos: nat)
    requires pos < |text|
    ensures RuneSize(text[pos..], 0) == RuneSize(text, pos)
  {}

  // ---- strings.Join and strings.Split ----

  function JoinWith(sep: string, parts: seq<string>): string {
    if parts == [] then "" else if |parts| == 1 then parts[0] else parts[0] + sep + JoinWith(sep, parts[1..])
  }

  function Join(sep: char, parts: seq<string>): string { JoinWith([sep], parts) }

  function Split(sep: char, text: string): (parts: seq<string>)
    ensures parts != [] && forall i :: 0 <= i < |parts| ==> sep !in parts[i]
    ensures Join(sep, parts) == text
  {
    if text == "" then [""]
    else
      var rest := Split(sep, text[1..]);
      if text[0] == sep then
        [""] + rest
      else
        assert Join(sep, [[text[0]] + rest[0]] + rest[1..]) == [text[0]] + Join(sep, rest);
        [[text[0]] + rest[0]] + rest[1..]
  }

  lemma {:induction false} SplitOfPrefix(sep: char, head: string, tail: string)
    requires sep !in head
    ensures Split(sep, head + [sep] + tail) == [head] + Split(sep, tail)
    ensures Split(sep, head) == [head]
  {
    var text := head + [sep] + tail;
    if head == "" {
      assert text[0] == sep && text[1..] == tail;
    } else {
      SplitOfPrefix(sep, head[1..], tail);
      assert text[0] == head[0] && text[1..] == head[1..] + [sep] + tail;
      SplitStep(sep, text, head[1..], Split(sep, tail));
      SplitStep(sep, head, head[1..], []);
      assert [head[0]] + head[1..] == head;
    }
  }

  // A character other than the separator joins the first part.
  lemma SplitStep(sep: char, text: string, first: string, rest: seq<string>)
    requires text != "" && text[0] != sep && Split(sep, text[1..]) == [first] + rest
    ensures Split(sep, text) == [[text[0]] + first] + rest
  {
    assert ([first] + rest)[1..] == rest;
  }

  // ---- join aliases ----

  /** The alias of a dotted join path: its names joined by double underscores. */
  function JoinedAlias(path: string): string {
    if path == "" then "" else (if path[0] == '.' then "__" else [path[0]]) + JoinedAlias(path[1..])
  }

  lemma {:induction false} JoinedAliasAppend(a: string, b: string)
    ensures JoinedAlias(a + b) == JoinedAlias(a) + JoinedAlias(b)
  {
    if a == "" {
      assert a + b == b;
    } else {
      JoinedAliasAppend(a[1..], b);
      assert (a + b)[1..] == a[1..] + b && (a + b)[0] == a[0];
      var head := if a[0] == '.' then "__" else [a[0]];
      assert head + (JoinedAlias(a[1..]) + JoinedAlias(b)) == (head + JoinedAlias(a[1..])) + JoinedAlias(b);
    }
  }

  lemma {:induction false} AliasOfName(name: string)
    requires '.' !in name
    ensures JoinedAlias(name) == name
  {
    if name != "" {
      AliasOfName(name[1..]);
    }
  }

  lemma {:induction false} AliasOfPath(names: seq<string>)
    requires forall i :: 0 <= i < |names| ==> '.' !in names[i]
    ensures JoinedAlias(JoinWith(".", names)) == JoinWith("__", names)
  {
    if |names| == 1 {
      AliasOfName(names[0]);
    } else if names != [] {
      AliasOfName(names[0]);
      AliasOfPath(names[1..]);
      var rest := JoinWith(".", names[1..]);
      JoinedAliasAppend(names[0] + ".", rest);
      JoinedAliasAppend(names[0], ".");
      assert "."[1..] == "" && JoinedAlias(".") == "__" + "";
    }
  }

  /** Splitting undoes joining for separator-free parts, so joining is injective on them. */
  lemma {:induction false} SplitJoin(sep: char, parts: seq<string>)
    requires parts != [] && forall i :: 0 <= i < |parts| ==> sep !in parts[i]
    ensures Split(sep, Join(sep, parts)) == parts
  {
    if |parts| == 1 {
      SplitOfPrefix(sep, parts[0], "");
    } else {
      SplitJoin(sep, parts[1..]);
      SplitOfPrefix(sep, parts[0], Join(sep, parts[1..]));
    }
  }

  // ---- decimal numerals ----

  function Digit(n: nat): char
    requires n < 10
  {
    '0' + n as char
  }

  function Decimal(n: nat): (text: string)
    ensures text != "" && forall i :: 0 <= i < |text| ==> IsDigit(text[i])
  {
    if n < 10 then [Digit(n)] else Decimal(n / 10) + [Digit(n % 10)]
  }

  lemma {:induction false} DecimalInjective(a: nat, b: nat)
    requires Decimal(a) == Decimal(b)
    ensures a == b
  {
    var x, y := Decimal(a), Decimal(b);
    assert x[|x| - 1] == y[|y| - 1];
    assert (a >= 10 ==> |x| > 1) && (b >= 10 ==> |y| > 1);
    if a >= 10 && b >= 10 {
      assert x[..|x| - 1] == Decimal(a / 10) && y[..|y| - 1] == Decimal(b / 10);
      DecimalInjective(a / 10, b / 10);
    }
  }
}
