/** cursor.go: the opaque token. Sort keys travel as canonical JSON in canonical
    base64url, bound to the effective sort by a digest of its description. */
module CursorCodec {
  import opened Common
  import opened Strings
  import opened Sql
  import opened KeyOrder
  import opened Cursor
  import Base64

  const CURSOR_VERSION := 1
  const NULL_JSON := "null"
  const SIGNATURE_BYTES := 18

  datatype Envelope = Envelope(version: int, signature: string, values: seq<string>)

  /** encoding/json and SHA-256. unmarshal and unmarshalKey stand for one strict
      Decode followed by the end-of-input check; hasType says that a value is one
      of the Go type's values. */
  datatype Library = Library(
    marshal: Envelope -> seq<Base64.Byte>,
    unmarshal: seq<Base64.Byte> -> Option<Envelope>,
    marshalKey: Scalar -> Option<string>,
    unmarshalKey: (ScalarType, string) -> Option<Scalar>,
    hasType: (ScalarType, Scalar) -> bool,
    digest: string -> seq<Base64.Byte>)

  predicate KeyText(lib: Library, cell: Cell, raw: string) {
    if cell.None? then raw == NULL_JSON else lib.marshalKey(cell.value) == Some(raw)
  }

  predicate HoldsMarshalledKeys(lib: Library, e: Envelope, values: Keys) {
    |values| == |e.values| && forall i :: 0 <= i < |values| ==> KeyText(lib, values[i], e.values[i])
  }

  // A key that JSON can carry: text in JSON is Unicode.
  predicate KeyTextValid(x: Scalar) { x.Text? ==> ValidUtf8(x.text) }

  /** What the token meets in encoding/json. An envelope of marshalled keys under a
      base64url signature comes back as it was. A key of its Go type is never written as
      null; it comes back as it was if its text is valid UTF-8. Otherwise its malformed
      bytes are written as the escape of U+FFFD, which is read as U+FFFD and not written
      that way again, so the typed decode refuses it. */
  ghost predicate JsonRoundTrips(lib: Library) {
    && (forall e, values, sum :: HoldsMarshalledKeys(lib, e, values) && e.signature == Base64.Encode(sum) ==>
          lib.unmarshal(lib.marshal(e)) == Some(e))
    && (forall t, x, raw :: lib.hasType(t, x) && lib.marshalKey(x) == Some(raw) ==>
          && raw != NULL_JSON
          && (KeyTextValid(x) ==> lib.unmarshalKey(t, raw) == Some(x))
          && (!KeyTextValid(x) ==> DecodeKey(lib, t, raw) == None))
  }

  // ---- signature ----

  function BoolText(b: bool): string { if b then "true" else "false" }

  function OrderFields(modelTable: string, index: nat, order: Order): seq<string> {
    [Decimal(index), OrderColumn(modelTable, order).table, order.column, order.joinPath,
     order.scalar.pkgPath, order.scalar.name, BoolText(order.desc)]
  }

  function AllOrderFields(modelTable: string, index: nat, orders: seq<Order>): seq<string>
    decreases orders
  {
    if orders == [] then []
    else OrderFields(modelTable, index, orders[0]) + AllOrderFields(modelTable, index + 1, orders[1..])
  }

  function PreimageFields(modelTable: string, orders: seq<Order>): seq<string> {
    ["gotq-cursor-v1", modelTable] + AllOrderFields(modelTable, 0, orders)
  }

  function Preimage(modelTable: string, orders: seq<Order>): string {
    Join('\0', PreimageFields(modelTable, orders))
  }

  function Signature(lib: Library, modelTable: string, orders: seq<Order>): string {
    var sum := lib.digest(Preimage(modelTable, orders));
    Base64.Encode(if |sum| < SIGNATURE_BYTES then sum else sum[..SIGNATURE_BYTES])
  }

  predicate NulFree(text: string) { '\0' !in text }

  predicate NulFreeOrder(order: Order) {
    NulFree(order.table) && NulFree(order.column) && NulFree(order.joinPath) &&
    NulFree(order.scalar.pkgPath) && NulFree(order.scalar.name)
  }

  predicate SameSortKey(tableA: string, a: Order, tableB: string, b: Order) {
    OrderColumn(tableA, a) == OrderColumn(tableB, b) && a.joinPath == b.joinPath &&
    a.scalar == b.scalar && a.desc == b.desc
  }

  lemma {:induction false} FieldsAreNulFree(modelTable: string, index: nat, orders: seq<Order>)
    requires NulFree(modelTable) && forall i :: 0 <= i < |orders| ==> NulFreeOrder(orders[i])
    ensures forall i :: 0 <= i < |AllOrderFields(modelTable, index, orders)| ==>
              NulFree(AllOrderFields(modelTable, index, orders)[i])
    decreases orders
  {
    if orders != [] {
      FieldsAreNulFree(modelTable, index + 1, orders[1..]);
    }
  }

  lemma {:induction false} FieldsDetermineOrders(tableA: string, a: seq<Order>, tableB: string, b: seq<Order>,
                                                 index: nat)
    requires AllOrderFields(tableA, index, a) == AllOrderFields(tableB, index, b)
    ensures |a| == |b| && forall i :: 0 <= i < |a| ==> SameSortKey(tableA, a[i], tableB, b[i])
  {
    if a != [] && b != [] {
      var x, y := OrderFields(tableA, index, a[0]), OrderFields(tableB, index, b[0]);
      var p, q := AllOrderFields(tableA, index + 1, a[1..]), AllOrderFields(tableB, index + 1, b[1..]);
      assert (x + p)[..7] == x && (y + q)[..7] == y && (x + p)[7..] == p && (y + q)[7..] == q;
      assert x[1] == y[1] && x[2] == y[2] && x[3] == y[3] && x[4] == y[4] && x[5] == y[5] && x[6] == y[6];
      FieldsDetermineOrders(tableA, a[1..], tableB, b[1..], index + 1);
      assert forall i :: 0 < i < |a| ==> a[i] == a[1..][i - 1] && b[i] == b[1..][i - 1];
    }
  }

  /** Only the same model table and position-by-position the same columns, join
      paths, Go types and directions write the same bytes into the digest. */
  lemma PreimageInjective(tableA: string, a: seq<Order>, tableB: string, b: seq<Order>)
    requires NulFree(tableA) && forall i :: 0 <= i < |a| ==> NulFreeOrder(a[i])
    requires NulFree(tableB) && forall i :: 0 <= i < |b| ==> NulFreeOrder(b[i])
    requires Preimage(tableA, a) == Preimage(tableB, b)
    ensures tableA == tableB && |a| == |b|
    ensures forall i :: 0 <= i < |a| ==> SameSortKey(tableA, a[i], tableB, b[i])
  {
    FieldsAreNulFree(tableA, 0, a);
    FieldsAreNulFree(tableB, 0, b);
    var x, y := PreimageFields(tableA, a), PreimageFields(tableB, b);
    SplitJoin('\0', x);
    SplitJoin('\0', y);
    assert x[2..] == AllOrderFields(tableA, 0, a) && y[2..] == AllOrderFields(tableB, 0, b);
    assert x[1] == y[1];
    FieldsDetermineOrders(tableA, a, tableB, b, 0);
  }

  lemma PairTail(x: string, y: string, back: seq<string>)
    ensures ([x, y] + back)[1..] == [y] + back
  {}

  // A separator inside a part may belong to its neighbour as well.
  lemma {:induction false} JoinShift(sep: char, front: seq<string>, x: string, middle: string, y: string,
                                     back: seq<string>)
    ensures Join(sep, front + ([x + [sep] + middle, y] + back)) == Join(sep, front + ([x, middle + [sep] + y] + back))
    decreases |front|
  {
    if front == [] {
      var left, right := [x + [sep] + middle, y] + back, [x, middle + [sep] + y] + back;
      assert front + left == left && front + right == right;
      PairTail(x + [sep] + middle, y, back);
      PairTail(x, middle + [sep] + y, back);
      var rest := if back == [] then "" else [sep] + Join(sep, back);
      assert ([y] + back)[1..] == back && ([middle + [sep] + y] + back)[1..] == back;
      assert Join(sep, [y] + back) == y + rest;
      assert Join(sep, [middle + [sep] + y] + back) == middle + [sep] + y + rest;
    } else {
      JoinShift(sep, front[1..], x, middle, y, back);
      assert (front + ([x + [sep] + middle, y] + back))[1..] == front[1..] + ([x + [sep] + middle, y] + back);
      assert (front + ([x, middle + [sep] + y] + back))[1..] == front[1..] + ([x, middle + [sep] + y] + back);
    }
  }

  /** Without the NUL-free premise the claim fails: a NUL moves the boundary between two
      names, and sorts by different columns share a preimage. */
  lemma PreimageNeedsNulFreeNames(column: string, middle: string, path: string)
    ensures var scalar := ScalarType("", "int");
      var a, b := Order("t", column + "\0" + middle, path, false, false, scalar),
        Order("t", column, middle + "\0" + path, false, false, scalar);
      Preimage("t", [a]) == Preimage("t", [b]) && !SameSortKey("t", a, "t", b)
  {
    var scalar := ScalarType("", "int");
    var a, b := Order("t", column + "\0" + middle, path, false, false, scalar),
      Order("t", column, middle + "\0" + path, false, false, scalar);
    var front, back := ["gotq-cursor-v1", "t", Decimal(0), "t"], ["", "int", "false"];
    assert AllOrderFields("t", 0, [a]) == OrderFields("t", 0, a) + []
      && AllOrderFields("t", 0, [b]) == OrderFields("t", 0, b) + [];
    assert PreimageFields("t", [a]) == front + ([column + ['\0'] + middle, path] + back);
    assert PreimageFields("t", [b]) == front + ([column, middle + ['\0'] + path] + back);
    JoinShift('\0', front, column, middle, path, back);
    assert |a.column| > |b.column|;
  }

  lemma {:induction false} JoinAppend(sep: char, parts: seq<string>, part: string)
    requires parts != []
    ensures Join(sep, parts + [part]) == Join(sep, parts) + [sep] + part
  {
    if |parts| > 1 {
      JoinAppend(sep, parts[1..], part);
      assert (parts + [part])[1..] == parts[1..] + [part];
    } else {
      assert (parts + [part])[1..] == [part] && Join(sep, [part]) == part;
    }
  }

  lemma {:induction false} AllOrderFieldsAppend(modelTable: string, index: nat, a: seq<Order>, order: Order)
    ensures AllOrderFields(modelTable, index, a + [order]) ==
            AllOrderFields(modelTable, index, a) + OrderFields(modelTable, index + |a|, order)
    decreases a
  {
    if a == [] {
      assert a + [order] == [order];
    } else {
      AllOrderFieldsAppend(modelTable, index + 1, a[1..], order);
      assert (a + [order])[1..] == a[1..] + [order];
    }
  }

  /** cursorSignature: the bytes the loop writes into the digest. */
  method WriteSignature(modelTable: string, orders: seq<Order>) returns (written: string)
    ensures written == Preimage(modelTable, orders)
  {
    written := "gotq-cursor-v1" + "\0";
    written := written + modelTable;
    ghost var fields := ["gotq-cursor-v1", modelTable];
    assert fields[1..] == [modelTable] && Join('\0', [modelTable]) == modelTable;
    for index := 0 to |orders|
      invariant fields == PreimageFields(modelTable, orders[..index])
      invariant written == Join('\0', fields)
    {
      var row := OrderFields(modelTable, index, orders[index]);
      AllOrderFieldsAppend(modelTable, 0, orders[..index], orders[index]);
      assert orders[..index + 1] == orders[..index] + [orders[index]];
      ghost var before := fields;
      for part := 0 to |row|
        invariant fields == before + row[..part]
        invariant written == Join('\0', fields)
      {
        JoinAppend('\0', fields, row[part]);
        written := written + "\0" + row[part];
        fields := fields + [row[part]];
        assert row[..part + 1] == row[..part] + [row[part]];
      }
      assert row[..|row|] == row;
    }
    assert orders[..|orders|] == orders;
  }

  // ---- keys ----

  function MarshalAll(lib: Library, values: Keys): Option<seq<string>> {
    if values == [] then Some([])
    else
      var head := if values[0].None? then Some(NULL_JSON) else lib.marshalKey(values[0].value);
      match (head, MarshalAll(lib, values[1..]))
      case (Some(raw), Some(rest)) => Some([raw] + rest)
      case _ => None
  }

  // decodeCursorValue: a typed decode whose re-encoding must give the same bytes.
  function DecodeKey(lib: Library, scalar: ScalarType, raw: string): Option<Scalar> {
    match lib.unmarshalKey(scalar, raw)
    case None => None
    case Some(value) => if lib.marshalKey(value) == Some(raw) then Some(value) else None
  }

  predicate AllowsNull(order: Order) { order.joinPath != "" || order.nullable }

  function DecodeKeys(lib: Library, orders: seq<Order>, raws: seq<string>): Option<Keys>
    requires |orders| == |raws|
  {
    if raws == [] then Some([])
    else if raws[0] == NULL_JSON then
      if !AllowsNull(orders[0]) then None
      else
        match DecodeKeys(lib, orders[1..], raws[1..])
        case None => None
        case Some(rest) => Some([Cell.None] + rest)
    else
      match (DecodeKey(lib, orders[0].scalar, raws[0]), DecodeKeys(lib, orders[1..], raws[1..]))
      case (Some(value), Some(rest)) => Some([Some(value)] + rest)
      case _ => None
  }

  // ---- encodeCursor and decodeCursor ----

  function EncodeCursorOf(lib: Library, modelTable: string, orders: seq<Order>, values: Keys,
                          maxBytes: int): Result<string> {
    if |values| != |orders| then Err(ExecutionFailed)
    else
      match MarshalAll(lib, values)
      case None => Err(ExecutionFailed)
      case Some(raws) =>
        var encoded := Base64.Encode(lib.marshal(Envelope(CURSOR_VERSION, Signature(lib, modelTable, orders), raws)));
        if |encoded| > maxBytes then Err(ExecutionFailed) else Ok(encoded)
  }

  function DecodeCursorOf(lib: Library, modelTable: string, orders: seq<Order>, encoded: string,
                          maxBytes: int): Result<Keys> {
    if |encoded| > maxBytes then Err(LimitExceeded)
    else
      match Base64.DecodeString(encoded)
      case None => Err(InvalidCursor)
      case Some(raw) =>
        if Base64.Encode(raw) != encoded then Err(InvalidCursor)
        else
          match lib.unmarshal(raw)
          case None => Err(InvalidCursor)
          case Some(envelope) =>
            if lib.marshal(envelope) != raw then Err(InvalidCursor)
            else if envelope.version != CURSOR_VERSION then Err(InvalidCursor)
            else if envelope.signature != Signature(lib, modelTable, orders) then Err(InvalidCursor)
            else if |envelope.values| != |orders| then Err(InvalidCursor)
            else
              match DecodeKeys(lib, orders, envelope.values)
              case None => Err(InvalidCursor)
              case Some(values) => Ok(values)
  }

  lemma MarshalAllOne(lib: Library, value: Cell)
    ensures var raw := if value.None? then Some(NULL_JSON) else lib.marshalKey(value.value);
      MarshalAll(lib, [value]) == if raw.None? then None else Some([raw.value])
  {
    var raw := if value.None? then Some(NULL_JSON) else lib.marshalKey(value.value);
    assert [value][1..] == [] && MarshalAll(lib, []) == Some([]);
    if raw.Some? {
      assert [raw.value] + [] == [raw.value];
    }
  }

  lemma {:induction false} MarshalAllAppend(lib: Library, values: Keys, value: Cell)
    ensures MarshalAll(lib, values + [value]) ==
      match (MarshalAll(lib, values), MarshalAll(lib, [value]))
      case (Some(raws), Some(one)) => Some(raws + one)
      case _ => None
  {
    if values == [] {
      assert values + [value] == [value];
      if MarshalAll(lib, [value]).Some? {
        assert [] + MarshalAll(lib, [value]).value == MarshalAll(lib, [value]).value;
      }
    } else {
      MarshalAllAppend(lib, values[1..], value);
      assert (values + [value])[1..] == values[1..] + [value];
      var tail, one := MarshalAll(lib, values[1..]), MarshalAll(lib, [value]);
      if MarshalAll(lib, values).Some? && one.Some? {
        var head := MarshalAll(lib, values).value[..1];
        assert MarshalAll(lib, values).value == head + tail.value;
        assert (head + tail.value) + one.value == head + (tail.value + one.value);
      }
    }
  }

  lemma {:induction false} MarshalAllPrefix(lib: Library, values: Keys, count: nat)
    requires count <= |values| && MarshalAll(lib, values).Some?
    ensures MarshalAll(lib, values[..count]).Some?
  {
    if count > 0 {
      MarshalAllPrefix(lib, values[1..], count - 1);
      assert values[..count][1..] == values[1..][..count - 1];
    }
  }

  method EncodeCursor(lib: Library, modelTable: string, orders: seq<Order>, values: Keys, maxBytes: int)
    returns (result: Result<string>)
    ensures result == EncodeCursorOf(lib, modelTable, orders, values, maxBytes)
  {
    if |values| != |orders| {
      return Err(ExecutionFailed);
    }
    var raws: seq<string> := [];
    for index := 0 to |values|
      invariant MarshalAll(lib, values[..index]) == Some(raws)
    {
      var raw := if values[index].None? then Some(NULL_JSON) else lib.marshalKey(values[index].value);
      MarshalAllAppend(lib, values[..index], values[index]);
      MarshalAllOne(lib, values[index]);
      assert values[..index + 1] == values[..index] + [values[index]];
      if raw.None? {
        if MarshalAll(lib, values).Some? {
          MarshalAllPrefix(lib, values, index + 1);
        }
        return Err(ExecutionFailed);
      }
      raws := raws + [raw.value];
    }
    assert values[..|values|] == values;
    var encoded := Base64.Encode(lib.marshal(Envelope(CURSOR_VERSION, Signature(lib, modelTable, orders), raws)));
    if |encoded| > maxBytes {
      return Err(ExecutionFailed);
    }
    return Ok(encoded);
  }

  lemma {:induction false} DecodeKeysPrefix(lib: Library, orders: seq<Order>, raws: seq<string>, count: nat)
    requires count <= |orders| == |raws| && DecodeKeys(lib, orders, raws).Some?
    ensures DecodeKeys(lib, orders[..count], raws[..count]).Some?
  {
    if count > 0 {
      DecodeKeysPrefix(lib, orders[1..], raws[1..], count - 1);
      assert orders[..count][1..] == orders[1..][..count - 1] && raws[..count][1..] == raws[1..][..count - 1];
    }
  }

  lemma {:induction false} DecodeKeysAppend(lib: Library, orders: seq<Order>, raws: seq<string>, order: Order,
                                            raw: string)
    requires |orders| == |raws|
    ensures DecodeKeys(lib, orders + [order], raws + [raw]) ==
      match (DecodeKeys(lib, orders, raws), DecodeKeys(lib, [order], [raw]))
      case (Some(values), Some(one)) => Some(values + one)
      case _ => None
  {
    if raws == [] {
      assert orders + [order] == [order] && raws + [raw] == [raw];
      if DecodeKeys(lib, [order], [raw]).Some? {
        assert [] + DecodeKeys(lib, [order], [raw]).value == DecodeKeys(lib, [order], [raw]).value;
      }
    } else {
      DecodeKeysAppend(lib, orders[1..], raws[1..], order, raw);
      assert (orders + [order])[1..] == orders[1..] + [order] && (raws + [raw])[1..] == raws[1..] + [raw];
      var tail, one := DecodeKeys(lib, orders[1..], raws[1..]), DecodeKeys(lib, [order], [raw]);
      if DecodeKeys(lib, orders, raws).Some? && one.Some? {
        var head := DecodeKeys(lib, orders, raws).value[..1];
        assert DecodeKeys(lib, orders, raws).value == head + tail.value;
        assert (head + tail.value) + one.value == head + (tail.value + one.value);
      }
    }
  }

  method DecodeCursor(lib: Library, modelTable: string, orders: seq<Order>, encoded: string, maxBytes: int)
    returns (result: Result<Keys>)
    ensures result == DecodeCursorOf(lib, modelTable, orders, encoded, maxBytes)
  {
    if |encoded| > maxBytes {
      return Err(LimitExceeded);
    }
    var raw := Base64.DecodeString(encoded);
    if raw.None? || Base64.Encode(raw.value) != encoded {
      return Err(InvalidCursor);
    }
    var envelope := lib.unmarshal(raw.value);
    if envelope.None? || lib.marshal(envelope.value) != raw.value {
      return Err(InvalidCursor);
    }
    if envelope.value.version != CURSOR_VERSION || envelope.value.signature != Signature(lib, modelTable, orders) {
      return Err(InvalidCursor);
    }
    var raws := envelope.value.values;
    if |raws| != |orders| {
      return Err(InvalidCursor);
    }
    var values: Keys := [];
    for index := 0 to |raws|
      invariant DecodeKeys(lib, orders[..index], raws[..index]) == Some(values)
    {
      DecodeKeysAppend(lib, orders[..index], raws[..index], orders[index], raws[index]);
      assert orders[..index + 1] == orders[..index] + [orders[index]];
      assert raws[..index + 1] == raws[..index] + [raws[index]];
      if DecodeKeys(lib, orders, raws).Some? {
        DecodeKeysPrefix(lib, orders, raws, index + 1);
      }
      var one := DecodeKeys(lib, [orders[index]], [raws[index]]);
      assert one.Some? ==> one.value == [one.value[0]];
      if raws[index] == NULL_JSON {
        if orders[index].joinPath == "" && !orders[index].nullable {
          return Err(InvalidCursor);
        }
        values := values + [Cell.None];
        continue;
      }
      var value := DecodeKey(lib, orders[index].scalar, raws[index]);
      if value.None? {
        return Err(InvalidCursor);
      }
      values := values + [Some(value.value)];
    }
    assert orders[..|orders|] == orders && raws[..|raws|] == raws;
    return Ok(values);
  }

  // ---- bijection ----

  predicate TypedKeys(lib: Library, orders: seq<Order>, values: Keys) {
    |values| == |orders| &&
    forall i :: 0 <= i < |values| && values[i].Some? ==> lib.hasType(orders[i].scalar, values[i].value)
  }

  predicate NullsAllowed(orders: seq<Order>, values: Keys) {
    |values| == |orders| &&
    forall i :: 0 <= i < |values| && values[i].None? ==> orders[i].joinPath != "" || orders[i].nullable
  }

  predicate KeyTextsValid(values: Keys) {
    forall i :: 0 <= i < |values| && values[i].Some? ==> KeyTextValid(values[i].value)
  }

  // The tuples that survive a round trip.
  predicate KeysReturn(orders: seq<Order>, values: Keys) { NullsAllowed(orders, values) && KeyTextsValid(values) }

  lemma {:induction false} MarshalledText(lib: Library, values: Keys)
    requires MarshalAll(lib, values).Some?
    ensures var raws := MarshalAll(lib, values).value;
      |raws| == |values| && forall i :: 0 <= i < |raws| ==> KeyText(lib, values[i], raws[i])
  {
    if values != [] {
      MarshalledText(lib, values[1..]);
      var raws := MarshalAll(lib, values).value;
      assert raws[1..] == MarshalAll(lib, values[1..]).value;
    }
  }

  lemma NullsAllowedStep(orders: seq<Order>, values: Keys)
    requires |orders| == |values| && values != []
    ensures NullsAllowed(orders, values) <==>
            (values[0].None? ==> AllowsNull(orders[0])) && NullsAllowed(orders[1..], values[1..])
  {
    assert forall i :: 0 < i < |values| ==> values[i] == values[1..][i - 1] && orders[i] == orders[1..][i - 1];
    assert forall i :: 0 <= i < |values| - 1 ==> values[1..][i] == values[i + 1] && orders[1..][i] == orders[i + 1];
  }

  lemma KeyTextsStep(values: Keys)
    requires values != []
    ensures KeyTextsValid(values) <==> (values[0].Some? ==> KeyTextValid(values[0].value)) && KeyTextsValid(values[1..])
  {
    hide KeyTextValid;
    assert forall i :: 0 < i < |values| ==> values[i] == values[1..][i - 1];
    assert forall i :: 0 <= i < |values| - 1 ==> values[1..][i] == values[i + 1];
  }

  lemma {:induction false} DecodeKeysOfMarshalled(lib: Library, orders: seq<Order>, values: Keys)
    requires JsonRoundTrips(lib) && TypedKeys(lib, orders, values)
    requires MarshalAll(lib, values).Some?
    ensures |MarshalAll(lib, values).value| == |values|
    ensures DecodeKeys(lib, orders, MarshalAll(lib, values).value) ==
            if KeysReturn(orders, values) then Some(values) else None
  {
    MarshalledText(lib, values);
    if values != [] {
      var raws := MarshalAll(lib, values).value;
      assert TypedKeys(lib, orders[1..], values[1..]);
      DecodeKeysOfMarshalled(lib, orders[1..], values[1..]);
      assert raws[1..] == MarshalAll(lib, values[1..]).value;
      NullsAllowedStep(orders, values);
      KeyTextsStep(values);
      assert [values[0]] + values[1..] == values;
      assert KeyText(lib, values[0], raws[0]);
      if values[0].Some? {
        assert lib.hasType(orders[0].scalar, values[0].value);
        assert DecodeKey(lib, orders[0].scalar, raws[0]) == if KeyTextValid(values[0].value) then values[0] else None;
      }
    }
  }

  /** Decoding an encoded key tuple under the same sort gives the tuple back,
      unless it carries a NULL in a root column bound to a non-pointer field or a
      text that is not valid UTF-8: the encoder emits either and the decoder rejects it. */
  lemma DecodeOfEncode(lib: Library, modelTable: string, orders: seq<Order>, values: Keys, maxBytes: int)
    requires JsonRoundTrips(lib) && TypedKeys(lib, orders, values)
    requires EncodeCursorOf(lib, modelTable, orders, values, maxBytes).Ok?
    ensures var token := EncodeCursorOf(lib, modelTable, orders, values, maxBytes).value;
      DecodeCursorOf(lib, modelTable, orders, token, maxBytes) ==
        if KeysReturn(orders, values) then Ok(values) else Err(InvalidCursor)
  {
    var raws := MarshalAll(lib, values).value;
    var envelope := Envelope(CURSOR_VERSION, Signature(lib, modelTable, orders), raws);
    Base64.DecodeEncode(lib.marshal(envelope));
    MarshalledText(lib, values);
    assert HoldsMarshalledKeys(lib, envelope, values);
    DecodeKeysOfMarshalled(lib, orders, values);
  }

  const NUMBER_ORDER := Order("t", "c", "", false, false, ScalarType("", "int"))

  /** The smallest such case: a NULL in the only column of the sort, bound to a non-pointer
      field, is emitted by the encoder whatever the libraries do, and refused by the decoder. */
  lemma NullIsEmittedThenRefused(lib: Library) returns (maxBytes: nat, token: string)
    requires JsonRoundTrips(lib)
    ensures EncodeCursorOf(lib, "t", [NUMBER_ORDER], [None], maxBytes) == Ok(token)
    ensures DecodeCursorOf(lib, "t", [NUMBER_ORDER], token, maxBytes) == Err(InvalidCursor)
  {
    var orders: seq<Order>, values: Keys := [NUMBER_ORDER], [None];
    assert values[1..] == [] && MarshalAll(lib, values[1..]) == Some([]);
    var raws := MarshalAll(lib, values).value;
    token := Base64.Encode(lib.marshal(Envelope(CURSOR_VERSION, Signature(lib, "t", orders), raws)));
    maxBytes := |token|;
    assert !AllowsNull(orders[0]) && values[0].None?;
    DecodeOfEncode(lib, "t", orders, values, maxBytes);
  }

  const TEXT_ORDER := Order("t", "c", "", false, false, ScalarType("", "string"))
  const MALFORMED_KEY: Scalar := Text([0xFF as char])

  /** So is the text of one malformed byte. */
  lemma MalformedTextIsEmittedThenRefused(lib: Library) returns (maxBytes: nat, token: string)
    requires JsonRoundTrips(lib)
    requires lib.hasType(TEXT_ORDER.scalar, MALFORMED_KEY) && lib.marshalKey(MALFORMED_KEY).Some?
    ensures EncodeCursorOf(lib, "t", [TEXT_ORDER], [Some(MALFORMED_KEY)], maxBytes) == Ok(token)
    ensures DecodeCursorOf(lib, "t", [TEXT_ORDER], token, maxBytes) == Err(InvalidCursor)
  {
    var orders: seq<Order>, values: Keys := [TEXT_ORDER], [Some(MALFORMED_KEY)];
    assert values[1..] == [] && MarshalAll(lib, values[1..]) == Some([]);
    var raws := MarshalAll(lib, values).value;
    token := Base64.Encode(lib.marshal(Envelope(CURSOR_VERSION, Signature(lib, "t", orders), raws)));
    maxBytes := |token|;
    assert !ValidUtf8([0xFF as char]);
    assert values[0].Some? && !KeyTextValid(values[0].value);
    DecodeOfEncode(lib, "t", orders, values, maxBytes);
  }

  lemma {:induction false} MarshalOfDecodedKeys(lib: Library, orders: seq<Order>, raws: seq<string>)
    requires |orders| == |raws| && DecodeKeys(lib, orders, raws).Some?
    ensures var values := DecodeKeys(lib, orders, raws).value;
      |values| == |raws| && MarshalAll(lib, values) == Some(raws) && NullsAllowed(orders, values)
  {
    if raws != [] {
      MarshalOfDecodedKeys(lib, orders[1..], raws[1..]);
      var values := DecodeKeys(lib, orders, raws).value;
      assert values[1..] == DecodeKeys(lib, orders[1..], raws[1..]).value;
      assert [raws[0]] + raws[1..] == raws;
      assert forall i :: 0 < i < |values| ==> values[i] == values[1..][i - 1] && orders[i] == orders[1..][i - 1];
    }
  }

  /** Whatever token decodes is byte for byte the encoding of its result. */
  lemma EncodeOfDecode(lib: Library, modelTable: string, orders: seq<Order>, token: string, maxBytes: int)
    requires DecodeCursorOf(lib, modelTable, orders, token, maxBytes).Ok?
    ensures var values := DecodeCursorOf(lib, modelTable, orders, token, maxBytes).value;
      && EncodeCursorOf(lib, modelTable, orders, values, maxBytes) == Ok(token)
      && NullsAllowed(orders, values)
  {
    var raw := Base64.DecodeString(token).value;
    MarshalOfDecodedKeys(lib, orders, lib.unmarshal(raw).value.values);
  }

  /** A token made for one sort decodes under another only if the two signatures collide. */
  lemma TokenBoundToSort(lib: Library, modelTable: string, orders: seq<Order>, other: seq<Order>, values: Keys,
                         maxBytes: int)
    requires JsonRoundTrips(lib)
    requires EncodeCursorOf(lib, modelTable, orders, values, maxBytes).Ok?
    requires DecodeCursorOf(lib, modelTable, other, EncodeCursorOf(lib, modelTable, orders, values, maxBytes).value,
                            maxBytes).Ok?
    ensures Signature(lib, modelTable, orders) == Signature(lib, modelTable, other) && |orders| == |other|
  {
    var raws := MarshalAll(lib, values).value;
    var envelope := Envelope(CURSOR_VERSION, Signature(lib, modelTable, orders), raws);
    Base64.DecodeEncode(lib.marshal(envelope));
    MarshalledText(lib, values);
    assert HoldsMarshalledKeys(lib, envelope, values);
  }
}
