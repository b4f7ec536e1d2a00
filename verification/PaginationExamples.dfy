/** A traversal that stops although the row its cursor stands on is harmless: the token of
    the row that ends the next page is too long. */
module PaginationExamples {
  import opened Common
  import opened Strings
  import opened Sql
  import opened KeyOrder
  import opened Cursor
  import opened CursorCodec
  import opened Listing
  import opened Pagination
  import Base64
  import T = Traversal

  /** JSON writes every key of an envelope and every byte of an ASCII text. */
  ghost predicate JsonHoldsKeys(lib: Library) {
    && (forall e, values, k :: HoldsMarshalledKeys(lib, e, values) && 0 <= k < |e.values| ==>
        |lib.marshal(e)| >= |e.values[k]|)
    && (forall text, raw :: lib.marshalKey(Text(text)) == Some(raw) && Ascii(text) ==> |raw| >= |text|)
  }

  predicate Ascii(text: string) { forall i :: 0 <= i < |text| ==> text[i] < 0x80 as char }

  lemma {:induction false} AsciiIsValid(text: string)
    requires Ascii(text)
    ensures ValidUtf8(text)
  {
    if text != "" {
      AsciiIsValid(text[1..]);
    }
  }

  lemma {:induction false} BitsAreMore(raw: seq<Base64.Byte>)
    ensures |Base64.ToBits(raw)| >= |raw|
  {
    if |raw| > 2 {
      BitsAreMore(raw[3..]);
    }
  }

  // ---- three rows: "a", a text of many b, "c" ----

  function FirstByte(x: Scalar): int { if x.Text? && x.text != "" then x.text[0] as int else -1 }

  function ByFirstByte(): Dialect { Dialect((a, b) => FirstByte(a) <= FirstByte(b), (a, b) => a == b, false) }

  const KEY := Order("t", "k", "", false, false, ScalarType("", "string"))
  const KEYED := Model("t", ["k"], map["k" := ScalarType("", "string")])

  function RowOf(text: string): Env { map["t" := map["k" := Some(Text(text))]] }

  function Many(n: nat): (text: string)
    ensures |text| == n + 1 && text[0] == 'b' && Ascii(text)
  {
    seq(n + 1, i => 'b')
  }

  function Stored(n: nat): Snapshot { Snapshot({RowOf("a"), RowOf(Many(n)), RowOf("c")}, map[]) }

  function SetupFor(lib: Library, maxBytes: nat): Setup {
    Setup(lib, Endpoint(KEYED, 1, [], true, maxBytes), View(ByFirstByte(), "t", [KEY]), [])
  }

  lemma KeyOf(lib: Library, maxBytes: nat, text: string)
    ensures SetupFor(lib, maxBytes).v.Key(RowOf(text)) == [Some(Text(text))]
  {}

  lemma Compares(lib: Library, maxBytes: nat, a: string, b: string)
    requires a != "" && b != ""
    ensures SetupFor(lib, maxBytes).v.Lt()(RowOf(a), RowOf(b)) <==> a[0] < b[0]
  {
    KeyOf(lib, maxBytes, a);
    KeyOf(lib, maxBytes, b);
    var d, descs := ByFirstByte(), Directions([KEY]);
    var x, y: Keys := [Some(Text(a))], [Some(Text(b))];
    assert descs[1..] == [] && x[1..] == [] && y[1..] == [];
    assert CompareKeys(d, descs[1..], x[1..], y[1..]) == Same;
    assert CompareKeys(d, descs, x, y) == CompareKey(d, false, x[0], y[0]);
  }

  lemma SetupIsValid(lib: Library, maxBytes: nat)
    requires JsonRoundTrips(lib)
    ensures ValidSetup(SetupFor(lib, maxBytes))
  {
    assert [KEY][0] == KEY;
  }

  lemma OtherKeys(x: string, y: string)
    requires x != "" && y != "" && x[0] != y[0]
    ensures !SamePrimaryKey(ByFirstByte(), KEYED, RowOf(x), RowOf(y))
  {
    assert "k" in KEYED.primaryColumns;
  }

  lemma StoredIsDistinct(n: nat)
    ensures DistinctRows(ByFirstByte(), KEYED, Stored(n))
  {
    hide SamePrimaryKey, RowOf;
    var texts := {"a", Many(n), "c"};
    forall a, b | a in Stored(n).rows && b in Stored(n).rows && a != b
      ensures !SamePrimaryKey(ByFirstByte(), KEYED, a, b)
    {
      var x :| x in texts && a == RowOf(x);
      var y :| y in texts && b == RowOf(y);
      OtherKeys(x, y);
    }
  }

  // Behind "a" come the other two.
  lemma BehindFirst(lib: Library, maxBytes: nat, n: nat)
    ensures var s := SetupFor(lib, maxBytes);
      T.Lists(s.v.Lt(), Remaining(s.v, Stored(n), [], Some([Some(Text("a"))])), [RowOf(Many(n)), RowOf("c")])
  {
    var s := SetupFor(lib, maxBytes);
    KeyOf(lib, maxBytes, "a");
    Compares(lib, maxBytes, "a", "a");
    Compares(lib, maxBytes, "a", Many(n));
    Compares(lib, maxBytes, "a", "c");
    Compares(lib, maxBytes, Many(n), "c");
    var rows, rest := [RowOf(Many(n)), RowOf("c")], Remaining(s.v, Stored(n), [], Some([Some(Text("a"))]));
    forall r ensures r in rest <==> r == RowOf(Many(n)) || r == RowOf("c") {
      assert s.v.Lt()(RowOf("a"), r) == s.v.Follows([Some(Text("a"))], r);
    }
  }

  // An envelope around one ASCII text is at least as long as the text.
  lemma EnvelopeHolds(lib: Library, signature: string, text: string)
    requires JsonHoldsKeys(lib) && Ascii(text) && lib.marshalKey(Text(text)).Some?
    ensures |lib.marshal(Envelope(CURSOR_VERSION, signature, [lib.marshalKey(Text(text)).value]))| >= |text|
  {
    var raw := lib.marshalKey(Text(text)).value;
    var envelope, values: Keys := Envelope(CURSOR_VERSION, signature, [raw]), [Some(Text(text))];
    assert KeyText(lib, values[0], raw) && envelope.values[0] == raw;
    assert HoldsMarshalledKeys(lib, envelope, values);
  }

  lemma MarshalOne(lib: Library, x: Scalar)
    ensures MarshalAll(lib, [Some(x)]) == if lib.marshalKey(x).Some? then Some([lib.marshalKey(x).value]) else None
  {
    var values: Keys := [Some(x)];
    assert values[1..] == [] && MarshalAll(lib, values[1..]) == Some([]);
    assert lib.marshalKey(x).Some? ==> [lib.marshalKey(x).value] + [] == [lib.marshalKey(x).value];
  }

  lemma LongTokenIsRefused(lib: Library, maxBytes: nat)
    requires JsonHoldsKeys(lib)
    ensures var s := SetupFor(lib, maxBytes); TokenFor(s.lib, s.e, s.v, RowOf(Many(maxBytes))).Err?
  {
    hide JsonHoldsKeys, MarshalAll, Signature, Ascii, Base64.ToBits, RowOf, KeysOf;
    var text := Many(maxBytes);
    KeyOf(lib, maxBytes, text);
    MarshalOne(lib, Text(text));
    if lib.marshalKey(Text(text)).Some? {
      var signature := Signature(lib, "t", [KEY]);
      EnvelopeHolds(lib, signature, text);
      BitsAreMore(lib.marshal(Envelope(CURSOR_VERSION, signature, [lib.marshalKey(Text(text)).value])));
    }
  }

  /** The client stands on "a", whose key is neither NULL nor malformed. With one row a
      page the next one would end on the long text, so its token is refused, and no page is answered. */
  lemma LongKeyStopsTraversal(lib: Library, maxBytes: nat, c: Client, count: bool)
    requires JsonRoundTrips(lib) && JsonHoldsKeys(lib) && lib.hasType(KEY.scalar, Text("a"))
    requires var s := SetupFor(lib, maxBytes);
      c.seen == [RowOf("a")] && c.position.At? && TokenFor(s.lib, s.e, s.v, RowOf("a")) == Ok(c.position.token)
    ensures var s := SetupFor(lib, maxBytes);
      && KeysReturn(s.v.orders, s.v.Key(RowOf("a")))
      && !exists page :: Served(s, Stored(maxBytes), c.position, 1, count, page)
  {
    hide JsonRoundTrips, JsonHoldsKeys, ValidSetup, DistinctRows, TokenFor, Remaining, T.Lists, PageEncodes,
      ByFirstByte, Many, Served;
    var s, snap := SetupFor(lib, maxBytes), Stored(maxBytes);
    KeyOf(lib, maxBytes, "a");
    AsciiIsValid("a");
    SetupIsValid(lib, maxBytes);
    StoredIsDistinct(maxBytes);
    BehindFirst(lib, maxBytes, maxBytes);
    LongTokenIsRefused(lib, maxBytes);
    assert TotalPreorder(s.v.d.le) by { OrderIsTotal(); }
    PageEncodesFor(s.lib, s.e, s.v, snap, s.wheres, Some([Some(Text("a"))]), 1, 0, [RowOf(Many(maxBytes)), RowOf("c")]);
    ContinuationAnsweredIff(s, snap, c, 1, count);
  }

  lemma OrderIsTotal()
    ensures TotalPreorder(ByFirstByte().le)
  {}
}
