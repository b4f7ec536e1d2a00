/** UTF-8 as section 3 of RFC 3629 lays it out: a text is valid exactly when it is the
    encoding of some Unicode scalar values. */
module Utf8 {
  import opened Strings

  predicate IsScalar(v: int) { 0 <= v < 0xD800 || 0xE000 <= v < 0x11_0000 }

  function Encoded(v: int): string
    requires IsScalar(v)
  {
    if v < 0x80 then [v as char]
    else if v < 0x800 then [(0xC0 + v / 64) as char, (0x80 + v % 64) as char]
    else if v < 0x1_0000 then [(0xE0 + v / 4096) as char, (0x80 + v / 64 % 64) as char, (0x80 + v % 64) as char]
    else [(0xF0 + v / 262144) as char, (0x80 + v / 4096 % 64) as char, (0x80 + v / 64 % 64) as char,
          (0x80 + v % 64) as char]
  }

  ghost predicate AllScalars(vs: seq<int>) { forall i :: 0 <= i < |vs| ==> IsScalar(vs[i]) }

  function EncodedAll(vs: seq<int>): string
    requires AllScalars(vs)
  {
    if vs == [] then "" else Encoded(vs[0]) + EncodedAll(vs[1..])
  }

  lemma EncodedIsOneRune(v: int, rest: string)
    requires IsScalar(v)
    ensures var text := Encoded(v) + rest;
      if v < 0x80 then text[0] == v as char else text[0] >= 0x80 as char && RuneSize(text, 0) == |Encoded(v)| > 1
  {
    var text := Encoded(v) + rest;
    assert forall i :: 0 <= i < |Encoded(v)| ==> text[i] == Encoded(v)[i];
  }

  // The value the bytes of one rune carry.
  lemma TwoBytes(text: string) returns (v: int)
    requires text != "" && text[0] >= 0x80 as char && RuneSize(text, 0) == 2
    ensures IsScalar(v) && Encoded(v) == text[..2]
  {
    var a, b := text[0] as int - 0xC0, text[1] as int - 0x80;
    v := a * 64 + b;
    assert v / 64 == a && v % 64 == b;
  }

  lemma ThreeBytes(text: string) returns (v: int)
    requires text != "" && text[0] >= 0x80 as char && RuneSize(text, 0) == 3
    ensures IsScalar(v) && Encoded(v) == text[..3]
  {
    var a, b, c := text[0] as int - 0xE0, text[1] as int - 0x80, text[2] as int - 0x80;
    v := a * 4096 + b * 64 + c;
    assert v / 64 == a * 64 + b && v % 64 == c;
    assert v / 4096 == a && v / 64 % 64 == b;
  }

  lemma FourBytes(text: string) returns (v: int)
    requires text != "" && text[0] >= 0x80 as char && RuneSize(text, 0) == 4
    ensures IsScalar(v) && Encoded(v) == text[..4]
  {
    var a, b, c, e := text[0] as int - 0xF0, text[1] as int - 0x80, text[2] as int - 0x80, text[3] as int - 0x80;
    v := a * 262144 + b * 4096 + c * 64 + e;
    assert v / 64 == a * 4096 + b * 64 + c && v % 64 == e;
    assert v / 4096 == a * 64 + b && v / 64 % 64 == c;
    assert v / 262144 == a && v / 4096 % 64 == b;
  }

  lemma RuneIsEncoded(text: string) returns (v: int)
    requires text != "" && text[0] >= 0x80 as char && RuneSize(text, 0) > 1
    ensures IsScalar(v) && Encoded(v) == text[..RuneSize(text, 0)]
  {
    hide Encoded, IsScalar;
    if RuneSize(text, 0) == 2 {
      v := TwoBytes(text);
    } else if RuneSize(text, 0) == 3 {
      v := ThreeBytes(text);
    } else {
      v := FourBytes(text);
    }
  }

  lemma {:induction false} EncodedIsValid(vs: seq<int>)
    requires AllScalars(vs)
    ensures ValidUtf8(EncodedAll(vs))
  {
    hide RuneSize;
    if vs != [] {
      EncodedIsValid(vs[1..]);
      EncodedIsOneRune(vs[0], EncodedAll(vs[1..]));
      var text, size := EncodedAll(vs), |Encoded(vs[0])|;
      assert text[size..] == EncodedAll(vs[1..]);
    }
  }

  lemma {:induction false} ValidIsEncoded(text: string) returns (vs: seq<int>)
    requires ValidUtf8(text)
    ensures AllScalars(vs) && EncodedAll(vs) == text
    decreases |text|
  {
    hide RuneSize;
    if text == "" {
      return [];
    }
    var size, v := 1, text[0] as int;
    if text[0] >= 0x80 as char {
      size := RuneSize(text, 0);
      v := RuneIsEncoded(text);
    }
    var rest := ValidIsEncoded(text[size..]);
    assert text == text[..size] + text[size..] && Encoded(v) == text[..size];
    vs := [v] + rest;
    assert vs[1..] == rest;
  }

  /** A text is valid if and only if it encodes scalar values. */
  lemma ValidExactly(text: string)
    ensures ValidUtf8(text) <==> exists vs: seq<int> :: AllScalars(vs) && EncodedAll(vs) == text
  {
    if ValidUtf8(text) {
      var vs := ValidIsEncoded(text);
    }
    if vs: seq<int> :| AllScalars(vs) && EncodedAll(vs) == text {
      EncodedIsValid(vs);
    }
  }
}
