/** What ParseHTTP reads: each field of the query is what its one parameter says, under its
    canonical or, where allowed, its pre-release name. */
module HttpParameters {
  import opened Common
  import opened Strings
  import opened Ast
  import opened Grammar
  import opened SortParameter
  import opened HttpQuery

  // The parameter is not there, under either name.
  predicate Absent(values: Values, name: string, alias: string, compat: bool) {
    name !in values && !(compat && alias in values)
  }

  // It is there once, under its canonical name, with a text.
  predicate Says(values: Values, name: string, alias: string, compat: bool, text: string) {
    && name in values && values[name] == [text] && text != ""
    && !(compat && alias in values)
  }

  // It is there once, under its pre-release name.
  predicate SaysOld(values: Values, name: string, alias: string, compat: bool, text: string) {
    && compat && alias in values && values[alias] == [text] && text != ""
    && name !in values
  }

  predicate SaysEither(values: Values, name: string, alias: string, compat: bool, text: string) {
    Says(values, name, alias, compat, text) || SaysOld(values, name, alias, compat, text)
  }

  predicate NumberSays(values: Values, name: string, alias: string, compat: bool, most: int, number: Option<int>) {
    match number
    case None => Absent(values, name, alias, compat)
    case Some(n) =>
      && 0 <= n <= most && n <= MAX_INT
      && SaysEither(values, name, alias, compat, Decimal(n))
  }

  predicate SortSays(values: Values, limits: Limits, compat: bool, terms: seq<SortTerm>, text: string) {
    if text == "" then terms == [] && Absent(values, "sort", "orderby", compat)
    else
      && |terms| <= limits.maxSortTerms
      && (Says(values, "sort", "orderby", compat, text) ==>
            SortOf(text, limits.maxSortTerms, limits.maxPathDepth) == Ok(terms))
      && (SaysOld(values, "sort", "orderby", compat, text) ==> OrderByOf(text, limits.maxPathDepth) == Ok(terms))
      && SaysEither(values, "sort", "orderby", compat, text)
  }

  predicate FilterSays(values: Values, limits: Limits, filter: Option<Expr>, text: string) {
    match filter
    case None => text == "" && "filter" !in values
    case Some(e) =>
      && "filter" in values && values["filter"] == [text] && text != "" && |text| <= limits.maxFilterBytes
      && ParseFilter(text, limits) == Ok(e)
  }

  predicate CursorSays(values: Values, limits: Limits, offset: Option<int>, cursor: Option<string>) {
    match cursor
    case None => "cursor" !in values
    case Some(token) =>
      && "cursor" in values && values["cursor"] == [token] && token != "" && |token| <= limits.maxCursorBytes
      && (forall i :: 0 <= i < |token| ==>
            'a' <= token[i] <= 'z' || 'A' <= token[i] <= 'Z' || '0' <= token[i] <= '9' || token[i] == '-'
              || token[i] == '_')
      && offset.None?
  }

  predicate CountSays(values: Values, count: Option<bool>) {
    match count
    case None => "count" !in values
    case Some(flag) => "count" in values && values["count"] == [if flag then "true" else "false"]
  }

  predicate SearchSays(values: Values, limits: Limits, search: Option<string>) {
    match search
    case None => "search" !in values
    case Some(text) =>
      "search" in values && values["search"] == [text] && text != "" && ValidUtf8(text)
        && |text| <= limits.maxSearchBytes
  }

  ghost predicate Reads(values: Values, limits: Limits, compat: bool, q: Query) {
    && AllPositive(limits) && q.limits == limits && q.queryBytes == QueryBytes(values) <= limits.maxQueryBytes
    && FilterSays(values, limits, q.filter, q.filterSource)
    && SortSays(values, limits, compat, q.sort, q.sortSource)
    && NumberSays(values, "limit", "top", compat, limits.maxLimit, q.limit)
    && NumberSays(values, "offset", "skip", compat, limits.maxOffset, q.offset)
    && CursorSays(values, limits, q.offset, q.cursor)
    && CountSays(values, q.count)
    && SearchSays(values, limits, q.search)
  }

  lemma NumberExactly(values: Values, name: string, alias: string, most: int, compat: bool, number: Option<int>)
    ensures NumberOf(values, name, alias, most, compat) == Ok(number) <==>
      NumberSays(values, name, alias, compat, most, number)
  {
    hide Unsigned;
    var given := AliasedParameter(values, name, alias, compat);
    if given.Ok? && given.value.0.Some? {
      var text := given.value.0.value;
      forall n: nat ensures Unsigned(text) == Ok(n) <==> text == Decimal(n) && n <= MAX_INT {
        UnsignedExactly(text, n);
      }
    }
    if number.Some? && number.value >= 0 {
      UnsignedExactly(Decimal(number.value), number.value);
    }
  }

  lemma SortExactly(values: Values, limits: Limits, compat: bool, terms: seq<SortTerm>, text: string)
    ensures SortTermsOf(values, limits, compat) == Ok((terms, text)) <==> SortSays(values, limits, compat, terms, text)
  {
    hide OrderByOf, SortOf;
  }

  lemma FilterExactly(values: Values, limits: Limits, filter: Option<Expr>, text: string)
    ensures FilterOf(values, limits) == Ok((filter, text)) <==> FilterSays(values, limits, filter, text)
  {
    hide ParseFilter;
  }

  lemma CursorExactly(values: Values, limits: Limits, offset: Option<int>, cursor: Option<string>)
    ensures CursorOf(values, limits, offset) == Ok(cursor) <==> CursorSays(values, limits, offset, cursor)
  {}

  lemma CountExactly(values: Values, count: Option<bool>)
    ensures CountOf(values) == Ok(count) <==> CountSays(values, count)
  {}

  lemma SearchExactly(values: Values, limits: Limits, search: Option<string>)
    ensures SearchOf(values, limits) == Ok(search) <==> SearchSays(values, limits, search)
  {
    hide ValidUtf8;
  }

  /** A request is parsed to a query if and only if every field says what its parameter says. */
  lemma ParsedExactly(values: Values, limits: Limits, compat: bool, q: Query)
    ensures ParseHttpOf(values, limits, compat) == Ok(q) <==> Reads(values, limits, compat, q)
  {
    hide FilterOf, SortTermsOf, NumberOf, CursorOf, CountOf, SearchOf, FilterSays, SortSays, NumberSays, CursorSays,
      CountSays, SearchSays;
    FilterExactly(values, limits, q.filter, q.filterSource);
    SortExactly(values, limits, compat, q.sort, q.sortSource);
    NumberExactly(values, "limit", "top", limits.maxLimit, compat, q.limit);
    NumberExactly(values, "offset", "skip", limits.maxOffset, compat, q.offset);
    CursorExactly(values, limits, q.offset, q.cursor);
    CountExactly(values, q.count);
    SearchExactly(values, limits, q.search);
  }
}
