/** http.go's ParseHTTP: the query parameters of a request under one set of limits. */
module HttpQuery {
  import opened Common
  import opened Strings
  import opened Ast
  import opened Grammar
  import opened SortParameter
  import Base64
  import Parser

  // url.Values: every name with its decoded entries.
  type Values = map<string, seq<string>>

  const NO_LIMITS := Limits(0, 0, 0, 0, 0, 0, 0, 0, 0, 0, 0, 0, 0, 0)

  // Go's int is 64 bits wide.
  const MAX_INT: int := 0x7fff_ffff_ffff_ffff

  datatype Query = Query(
    limits: Limits, queryBytes: nat, filter: Option<Expr>, filterSource: string, sort: seq<SortTerm>,
      sortSource: string,
    limit: Option<int>, offset: Option<int>, cursor: Option<string>, count: Option<bool>, search: Option<string>)

  predicate AllPositive(l: Limits) {
    && Positive(l) && l.maxQueryBytes > 0 && l.maxLimit > 0 && l.maxOffset > 0 && l.maxSortTerms > 0
    && l.maxSearchBytes > 0 && l.maxCursorBytes > 0
  }

  // ---- decodedQueryBytes ----

  function EntryBytes(entries: seq<string>): nat {
    if entries == [] then 0 else |entries[0]| + EntryBytes(entries[1..])
  }

  ghost function QueryBytes(values: Values): nat {
    if values == map[] then 0
    else
      var name :| name in values;
      |name| + EntryBytes(values[name]) + QueryBytes(values - {name})
  }

  lemma {:induction false} QueryBytesFrom(values: Values, name: string)
    requires name in values
    ensures QueryBytes(values) == |name| + EntryBytes(values[name]) + QueryBytes(values - {name})
    decreases |values|
  {
    var first :| first in values
      && QueryBytes(values) == |first| + EntryBytes(values[first]) + QueryBytes(values - {first});
    if first != name {
      QueryBytesFrom(values - {first}, name);
      QueryBytesFrom(values - {name}, first);
      assert values - {first} - {name} == values - {name} - {first};
    }
  }

  /** Names and values count, byte by byte, and parameters add up. */
  lemma ParametersAddUp(values: Values, name: string, entries: seq<string>)
    requires name !in values
    ensures QueryBytes(map[]) == 0
    ensures QueryBytes(values[name := entries]) == QueryBytes(values) + |name| + EntryBytes(entries)
  {
    QueryBytesFrom(values[name := entries], name);
    assert values[name := entries] - {name} == values;
  }

  /** The total does not depend on the order the map is visited in. */
  method DecodedQueryBytes(values: Values) returns (total: nat)
    ensures total == QueryBytes(values)
  {
    total := 0;
    var rest := values;
    while rest != map[]
      invariant total + QueryBytes(rest) == QueryBytes(values)
      decreases |rest|
    {
      var name :| name in rest;
      QueryBytesFrom(rest, name);
      total := total + |name|;
      var entries := rest[name];
      for i := 0 to |entries|
        invariant total + EntryBytes(entries[i..]) + QueryBytes(rest - {name}) == QueryBytes(values)
      {
        assert entries[i..][1..] == entries[i + 1..];
        total := total + |entries[i]|;
      }
      rest := rest - {name};
    }
  }

  // ---- single parameters ----

  function SingleParameter(values: Values, name: string): (r: Result<Option<string>>)
    ensures r.Ok? && r.value.Some? ==> r.value.value != ""
  {
    if name !in values then Ok(None)
    else if |values[name]| != 1 || values[name][0] == "" then Err(InvalidParameter)
    else Ok(Some(values[name][0]))
  }

  // The canonical parameter, or its pre-release alias where allowed; true for the alias.
  function AliasedParameter(values: Values, canonical: string, alias: string,
                            allowAlias: bool): Result<(Option<string>, bool)> {
    var hasAlias := allowAlias && alias in values;
    if canonical in values && hasAlias then Err(InvalidParameter)
    else if hasAlias then
      var value :- SingleParameter(values, alias);
      Ok((value, true))
    else
      var value :- SingleParameter(values, canonical);
      Ok((value, false))
  }

  // ---- numbers ----

  function NumeralValue(digits: string): nat {
    if digits == "" then 0
    else
      var last := |digits| - 1;
      10 * NumeralValue(digits[..last]) + if IsDigit(digits[last]) then digits[last] as int - '0' as int else 0
  }

  predicate AllDigits(text: string) { forall i :: 0 <= i < |text| ==> IsDigit(text[i]) }

  /** parseUnsignedParameter; strconv.ParseUint is the value of the numeral. */
  function Unsigned(input: string): Result<nat> {
    if input == "0" then Ok(0)
    else if input == "" || !('1' <= input[0] <= '9') || !AllDigits(input) then Err(InvalidParameter)
    else if NumeralValue(input) > MAX_INT then Err(InvalidParameter)
    else Ok(NumeralValue(input))
  }

  method ParseUnsignedParameter(input: string) returns (result: Result<nat>)
    ensures result == Unsigned(input)
  {
    if input == "0" {
      return Ok(0);
    }
    if input == "" || input[0] < '1' || input[0] > '9' {
      return Err(InvalidParameter);
    }
    for i := 1 to |input|
      invariant AllDigits(input[..i])
    {
      if !IsDigit(input[i]) {
        return Err(InvalidParameter);
      }
      assert input[..i + 1] == input[..i] + [input[i]];
    }
    assert input[..|input|] == input;
    var value := NumeralValue(input);
    if value > MAX_INT {
      return Err(InvalidParameter);
    }
    return Ok(value);
  }

  lemma {:induction false} NumeralValueOfDecimal(n: nat)
    ensures NumeralValue(Decimal(n)) == n && AllDigits(Decimal(n))
    ensures n > 0 ==> Decimal(n)[0] != '0'
  {
    var text := Decimal(n);
    if n >= 10 {
      NumeralValueOfDecimal(n / 10);
      assert text[..|text| - 1] == Decimal(n / 10);
    } else {
      assert text[..0] == "";
      assert NumeralValue(text[..0]) == 0;
    }
  }

  lemma {:induction false} DecimalOfNumeral(text: string)
    requires text != "" && AllDigits(text) && text[0] != '0'
    ensures NumeralValue(text) > 0 && Decimal(NumeralValue(text)) == text
  {
    var last := |text| - 1;
    var front, digit := text[..last], text[last] as int - '0' as int;
    assert text == front + [text[last]] && IsDigit(text[last]);
    assert NumeralValue(text) == 10 * NumeralValue(front) + digit;
    if front != "" {
      DecimalOfNumeral(front);
      DecimalStep(NumeralValue(front), digit);
    } else {
      assert NumeralValue(front) == 0;
    }
  }

  lemma DecimalStep(n: nat, digit: nat)
    requires n > 0 && digit < 10
    ensures Decimal(10 * n + digit) == Decimal(n) + [Digit(digit)]
  {}

  /** Exactly the canonical decimal numerals that fit an int are accepted, with their value. */
  lemma UnsignedExactly(input: string, n: nat)
    ensures Unsigned(input) == Ok(n) <==> input == Decimal(n) && n <= MAX_INT
  {
    NumeralValueOfDecimal(n);
    if input == "0" {
      assert Decimal(0) == "0";
      if Decimal(n) == "0" {
        DecimalInjective(n, 0);
      }
    } else if Unsigned(input) == Ok(n) {
      DecimalOfNumeral(input);
    }
  }

  // ---- the parameters ----

  function FilterOf(values: Values, limits: Limits): Result<(Option<Expr>, string)> {
    var filter :- SingleParameter(values, "filter");
    if filter.None? then Ok((None, ""))
    else if |filter.value| > limits.maxFilterBytes then Err(LimitExceeded)
    else
      var expr :- ParseFilter(filter.value, limits);
      Ok((Some(expr), filter.value))
  }

  function SortTermsOf(values: Values, limits: Limits, compat: bool): Result<(seq<SortTerm>, string)> {
    var sort :- AliasedParameter(values, "sort", "orderby", compat);
    if sort.0.None? then Ok(([], ""))
    else
      var text := sort.0.value;
      var terms :- if sort.1 then OrderByOf(text, limits.maxPathDepth)
                   else SortOf(text, limits.maxSortTerms, limits.maxPathDepth);
      if |terms| > limits.maxSortTerms then Err(LimitExceeded) else Ok((terms, text))
  }

  function NumberOf(values: Values, canonical: string, alias: string, most: int, compat: bool): Result<Option<int>> {
    var number :- AliasedParameter(values, canonical, alias, compat);
    if number.0.None? then Ok(None)
    else
      var value :- Unsigned(number.0.value);
      if value > most then Err(LimitExceeded) else Ok(Some(value))
  }

  predicate AllBase64Url(text: string) { forall i :: 0 <= i < |text| ==> Base64.IsBase64URLCharacter(text[i]) }

  method CheckBase64Url(text: string) returns (ok: bool)
    ensures ok == AllBase64Url(text)
  {
    for i := 0 to |text|
      invariant AllBase64Url(text[..i])
    {
      if !Base64.IsBase64URLCharacter(text[i]) {
        return false;
      }
      assert text[..i + 1] == text[..i] + [text[i]];
    }
    assert text[..|text|] == text;
    return true;
  }

  function CursorOf(values: Values, limits: Limits, offset: Option<int>): Result<Option<string>> {
    var cursor :- SingleParameter(values, "cursor");
    if cursor.None? then Ok(None)
    else if |cursor.value| > limits.maxCursorBytes then Err(LimitExceeded)
    else if !AllBase64Url(cursor.value) then Err(InvalidCursor)
    else if offset.Some? then Err(InvalidParameter)
    else Ok(cursor)
  }

  function CountOf(values: Values): Result<Option<bool>> {
    var count :- SingleParameter(values, "count");
    if count.None? then Ok(None)
    else if count.value == "true" then Ok(Some(true))
    else if count.value == "false" then Ok(Some(false))
    else Err(InvalidParameter)
  }

  function SearchOf(values: Values, limits: Limits): Result<Option<string>> {
    var search :- SingleParameter(values, "search");
    if search.None? then Ok(None)
    else if !ValidUtf8(search.value) then Err(InvalidParameter)
    else if |search.value| > limits.maxSearchBytes then Err(LimitExceeded)
    else Ok(search)
  }

  ghost function ParseHttpOf(values: Values, limits: Limits, compat: bool): Result<Query> {
    if !AllPositive(limits) then Err(InvalidSchema)
    else if QueryBytes(values) > limits.maxQueryBytes then Err(LimitExceeded)
    else
      var filter :- FilterOf(values, limits);
      var sort :- SortTermsOf(values, limits, compat);
      var limit :- NumberOf(values, "limit", "top", limits.maxLimit, compat);
      var offset :- NumberOf(values, "offset", "skip", limits.maxOffset, compat);
      var cursor :- CursorOf(values, limits, offset);
      var count :- CountOf(values);
      var search :- SearchOf(values, limits);
      Ok(Query(limits, QueryBytes(values), filter.0, filter.1, sort.0, sort.1, limit, offset, cursor, count, search))
  }

  method ParseFilterParameter(values: Values, limits: Limits) returns (result: Result<(Option<Expr>, string)>)
    ensures result == FilterOf(values, limits)
  {
    hide ParseFilter;
    var filter :- SingleParameter(values, "filter");
    if filter.None? {
      return Ok((None, ""));
    }
    if |filter.value| > limits.maxFilterBytes {
      return Err(LimitExceeded);
    }
    var expr :- Parser.ParseFilterText(filter.value, limits);
    return Ok((Some(expr), filter.value));
  }

  method ParseSortParameter(values: Values, limits: Limits, compat: bool)
    returns (result: Result<(seq<SortTerm>, string)>)
    ensures result == SortTermsOf(values, limits, compat)
  {
    hide SortOf, OrderByOf, AliasedParameter;
    var sort :- AliasedParameter(values, "sort", "orderby", compat);
    if sort.0.None? {
      return Ok(([], ""));
    }
    var parsed: Result<seq<SortTerm>>;
    if sort.1 {
      parsed := ParseLegacyOrderBy(sort.0.value, limits.maxPathDepth);
    } else {
      parsed := ParseSort(sort.0.value, limits.maxSortTerms, limits.maxPathDepth);
    }
    var terms :- parsed;
    if |terms| > limits.maxSortTerms {
      return Err(LimitExceeded);
    }
    return Ok((terms, sort.0.value));
  }

  method ParseNumberParameter(values: Values, canonical: string, alias: string, most: int, compat: bool)
    returns (result: Result<Option<int>>)
    ensures result == NumberOf(values, canonical, alias, most, compat)
  {
    var number :- AliasedParameter(values, canonical, alias, compat);
    if number.0.None? {
      return Ok(None);
    }
    var value :- ParseUnsignedParameter(number.0.value);
    if value > most {
      return Err(LimitExceeded);
    }
    return Ok(Some(value));
  }

  method ParseCursorParameter(values: Values, limits: Limits, offset: Option<int>)
    returns (result: Result<Option<string>>)
    ensures result == CursorOf(values, limits, offset)
  {
    var cursor :- SingleParameter(values, "cursor");
    if cursor.None? {
      return Ok(None);
    }
    if |cursor.value| > limits.maxCursorBytes {
      return Err(LimitExceeded);
    }
    var ok := CheckBase64Url(cursor.value);
    if !ok {
      return Err(InvalidCursor);
    }
    if offset.Some? {
      return Err(InvalidParameter);
    }
    return Ok(cursor);
  }

  /** ParseHTTP */
  method ParseHttp(values: Values, limits: Limits, compat: bool) returns (result: Result<Query>)
    ensures result == ParseHttpOf(values, limits, compat)
  {
    hide FilterOf, SortTermsOf, NumberOf, CursorOf, CountOf, SearchOf;
    if !AllPositive(limits) {
      return Err(InvalidSchema);
    }
    var queryBytes := DecodedQueryBytes(values);
    if queryBytes > limits.maxQueryBytes {
      return Err(LimitExceeded);
    }
    var query := Query(limits, queryBytes, None, "", [], "", None, None, None, None, None);
    var filter :- ParseFilterParameter(values, limits);
    query := query.(filter := filter.0, filterSource := filter.1);
    var sort :- ParseSortParameter(values, limits, compat);
    query := query.(sort := sort.0, sortSource := sort.1);
    var limit :- ParseNumberParameter(values, "limit", "top", limits.maxLimit, compat);
    query := query.(limit := limit);
    var offset :- ParseNumberParameter(values, "offset", "skip", limits.maxOffset, compat);
    query := query.(offset := offset);
    var cursor :- ParseCursorParameter(values, limits, offset);
    query := query.(cursor := cursor);
    var count :- CountOf(values);
    query := query.(count := count);
    var search :- SearchOf(values, limits);
    query := query.(search := search);
    return Ok(query);
  }
}
