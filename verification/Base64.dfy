/** Unpadded base64url as Go's RawURLEncoding: the alphabet and layout of
    section 5 of RFC 4648, decoded leniently (line breaks skipped, trailing bits
    ignored) as encoding/base64 does unless Strict is asked for. */
module Base64 {
  import opened Common

  type Byte = b: int | 0 <= b < 256

  function Letter(v: int): char
    requires 0 <= v < 64
  {
    if v < 26 then 'A' + v as char
    else if v < 52 then 'a' + (v - 26) as char
    else if v < 62 then '0' + (v - 52) as char
    else if v == 62 then '-' else '_'
  }

  function Sextet(c: char): (v: int)
    ensures -1 <= v < 64
  {
    if 'A' <= c <= 'Z' then (c - 'A') as int
    else if 'a' <= c <= 'z' then (c - 'a') as int + 26
    else if '0' <= c <= '9' then (c - '0') as int + 52
    else if c == '-' then 62 else if c == '_' then 63 else -1
  }

  lemma SextetOfLetter(v: int)
    requires 0 <= v < 64
    ensures Sextet(Letter(v)) == v
  {}

  type Bits6 = v: int | 0 <= v < 64

  function FirstByte(a: Bits6, b: Bits6): Byte { a * 4 + b / 16 }

  function SecondByte(b: Bits6, c: Bits6): Byte { b % 16 * 16 + c / 4 }

  function ThirdByte(c: Bits6, d: Bits6): Byte { c % 4 * 64 + d }

  /** The six-bit groups of a byte string; a short last group is zero padded. */
  function ToBits(raw: seq<Byte>): seq<Bits6> {
    if |raw| == 0 then []
    else if |raw| == 1 then [raw[0] / 4, raw[0] % 4 * 16]
    else if |raw| == 2 then [raw[0] / 4, raw[0] % 4 * 16 + raw[1] / 16, raw[1] % 16 * 4]
    else
      [raw[0] / 4, raw[0] % 4 * 16 + raw[1] / 16, raw[1] % 16 * 4 + raw[2] / 64, raw[2] % 64] + ToBits(raw[3..])
  }

  /** Back to bytes, ignoring padding bits; a lone group carries no byte. */
  function FromBits(bits: seq<Bits6>): Option<seq<Byte>> {
    if |bits| == 0 then Some([])
    else if |bits| == 1 then None
    else if |bits| == 2 then Some([FirstByte(bits[0], bits[1])])
    else if |bits| == 3 then Some([FirstByte(bits[0], bits[1]), SecondByte(bits[1], bits[2])])
    else
      match FromBits(bits[4..])
      case None => None
      case Some(rest) =>
        Some([FirstByte(bits[0], bits[1]), SecondByte(bits[1], bits[2]), ThirdByte(bits[2], bits[3])] + rest)
  }

  function Letters(bits: seq<Bits6>): string {
    seq(|bits|, i requires 0 <= i < |bits| => Letter(bits[i]))
  }

  function Sextets(text: string): Option<seq<Bits6>> {
    if exists i :: 0 <= i < |text| && Sextet(text[i]) < 0 then None
    else Some(seq(|text|, i requires 0 <= i < |text| => Sextet(text[i])))
  }

  function Encode(raw: seq<Byte>): string { Letters(ToBits(raw)) }

  function DropLineBreaks(text: string): string {
    if text == "" then ""
    else if text[0] == '\r' || text[0] == '\n' then DropLineBreaks(text[1..])
    else [text[0]] + DropLineBreaks(text[1..])
  }

  function DecodeGroups(text: string): Option<seq<Byte>> {
    match Sextets(text)
    case None => None
    case Some(bits) => FromBits(bits)
  }

  function DecodeString(text: string): Option<seq<Byte>> { DecodeGroups(DropLineBreaks(text)) }

  predicate IsBase64URLCharacter(c: char) {
    'A' <= c <= 'Z' || 'a' <= c <= 'z' || '0' <= c <= '9' || c == '-' || c == '_'
  }

  lemma EncodeUsesAlphabet(raw: seq<Byte>)
    ensures forall i :: 0 <= i < |Encode(raw)| ==> IsBase64URLCharacter(Encode(raw)[i])
  {
    var bits := ToBits(raw);
    assert forall i :: 0 <= i < |bits| ==> IsBase64URLCharacter(Letter(bits[i]));
  }

  lemma {:induction false} NoLineBreaks(text: string)
    requires forall i :: 0 <= i < |text| ==> IsBase64URLCharacter(text[i])
    ensures DropLineBreaks(text) == text
  {
    if text != "" {
      assert forall i :: 0 <= i < |text[1..]| ==> text[1..][i] == text[i + 1];
      NoLineBreaks(text[1..]);
    }
  }

  lemma RegroupOne(x: Byte)
    ensures FirstByte(x / 4, x % 4 * 16) == x
  {}

  lemma RegroupTwo(x: Byte, y: Byte)
    ensures FirstByte(x / 4, x % 4 * 16 + y / 16) == x
    ensures SecondByte(x % 4 * 16 + y / 16, y % 16 * 4) == y
  {}

  lemma RegroupThree(x: Byte, y: Byte, z: Byte)
    ensures FirstByte(x / 4, x % 4 * 16 + y / 16) == x
    ensures SecondByte(x % 4 * 16 + y / 16, y % 16 * 4 + z / 64) == y
    ensures ThirdByte(y % 16 * 4 + z / 64, z % 64) == z
  {}

  lemma ShortGroups(a: Bits6, b: Bits6, c: Bits6)
    ensures FromBits([a, b]) == Some([FirstByte(a, b)])
    ensures FromBits([a, b, c]) == Some([FirstByte(a, b), SecondByte(b, c)])
  {}

  lemma FullGroup(a: Bits6, b: Bits6, c: Bits6, d: Bits6, rest: seq<Bits6>)
    requires FromBits(rest).Some?
    ensures FromBits([a, b, c, d] + rest) ==
            Some([FirstByte(a, b), SecondByte(b, c), ThirdByte(c, d)] + FromBits(rest).value)
  {
    assert ([a, b, c, d] + rest)[4..] == rest;
  }

  lemma OneByteGroup(x: Byte)
    ensures FromBits(ToBits([x])) == Some([x])
  {
    var a, b := x / 4, x % 4 * 16;
    assert ToBits([x]) == [a, b];
    ShortGroups(a, b, 0);
    RegroupOne(x);
  }

  lemma TwoByteGroup(x: Byte, y: Byte)
    ensures FromBits(ToBits([x, y])) == Some([x, y])
  {
    var a, b, c := x / 4, x % 4 * 16 + y / 16, y % 16 * 4;
    assert ToBits([x, y]) == [a, b, c];
    ShortGroups(a, b, c);
    RegroupTwo(x, y);
  }

  lemma ThreeByteGroup(x: Byte, y: Byte, z: Byte, rest: seq<Byte>)
    requires FromBits(ToBits(rest)) == Some(rest)
    ensures FromBits(ToBits([x, y, z] + rest)) == Some([x, y, z] + rest)
  {
    var a, b, c, d := x / 4, x % 4 * 16 + y / 16, y % 16 * 4 + z / 64, z % 64;
    assert ([x, y, z] + rest)[3..] == rest;
    assert ToBits([x, y, z] + rest) == [a, b, c, d] + ToBits(rest);
    FullGroup(a, b, c, d, ToBits(rest));
    RegroupThree(x, y, z);
  }

  lemma {:induction false} FromBitsToBits(raw: seq<Byte>)
    ensures FromBits(ToBits(raw)) == Some(raw)
  {
    if |raw| == 1 {
      OneByteGroup(raw[0]);
      assert raw == [raw[0]];
    } else if |raw| == 2 {
      TwoByteGroup(raw[0], raw[1]);
      assert raw == [raw[0], raw[1]];
    } else if |raw| > 2 {
      FromBitsToBits(raw[3..]);
      ThreeByteGroup(raw[0], raw[1], raw[2], raw[3..]);
      assert raw == [raw[0], raw[1], raw[2]] + raw[3..];
    }
  }

  lemma SextetsLetters(bits: seq<Bits6>)
    ensures Sextets(Letters(bits)) == Some(bits)
  {
    var text := Letters(bits);
    forall i | 0 <= i < |bits| ensures Sextet(text[i]) == bits[i] {
      SextetOfLetter(bits[i]);
    }
    assert seq(|text|, i requires 0 <= i < |text| => Sextet(text[i])) == bits;
  }

  lemma DecodeEncode(raw: seq<Byte>)
    ensures DecodeString(Encode(raw)) == Some(raw)
  {
    EncodeUsesAlphabet(raw);
    NoLineBreaks(Encode(raw));
    SextetsLetters(ToBits(raw));
    FromBitsToBits(raw);
  }

  /** decodeCursor's canonical test (decode, then compare the re-encoding) accepts
      exactly the encoder's own outputs, although the decoder alone is lenient. */
  lemma CanonicalExactly(text: string, raw: seq<Byte>)
    ensures DecodeString(text) == Some(raw) && Encode(raw) == text <==> text == Encode(raw)
  {
    if text == Encode(raw) {
      DecodeEncode(raw);
    }
  }

  /** The leniency is real: this text decodes, but no encoding produces it. */
  lemma LenientDecoding()
    ensures DecodeString("AB").Some? && forall raw: seq<Byte> :: Encode(raw) != "AB"
  {
    var bits: seq<Bits6> := [0, 1];
    assert Letters(bits) == "AB";
    SextetsLetters(bits);
    assert FromBits(bits) == Some([0]);
    NoLineBreaks("AB");
    forall raw: seq<Byte> ensures Encode(raw) != "AB" {
      SextetsLetters(ToBits(raw));
    }
  }
}
