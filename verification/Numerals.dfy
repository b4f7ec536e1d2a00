/** The number literals of the filter language, part by part: what the scanner accepts. */
module Numerals {
  import opened Common
  import opened Strings
  import opened Lexer

  predicate Digits(text: string) { text != "" && forall i :: 0 <= i < |text| ==> '0' <= text[i] <= '9' }

  predicate SignPart(text: string) { text == "" || text == "-" }

  predicate IntegerPart(text: string) { text == "0" || (Digits(text) && text[0] != '0') }

  predicate FractionPart(text: string) { text == "" || (text[0] == '.' && Digits(text[1..])) }

  predicate ExponentPart(text: string) {
    text == "" ||
    ((text[0] == 'e' || text[0] == 'E') &&
     (Digits(text[1..]) || (|text| > 1 && (text[1] == '+' || text[1] == '-') && Digits(text[2..]))))
  }

  predicate Parts(sign: string, integer: string, fraction: string, exponent: string) {
    SignPart(sign) && IntegerPart(integer) && FractionPart(fraction) && ExponentPart(exponent)
  }

  /** An optional minus; zero, or digits that do not start with one; an optional fraction; an optional exponent. */
  ghost predicate IsNumber(text: string) {
    exists sign, integer, fraction, exponent ::
      Parts(sign, integer, fraction, exponent) && text == sign + integer + fraction + exponent
  }

  lemma {:induction false} DigitsEndAt(input: string, pos: nat, end: nat)
    requires pos <= end <= |input| && (forall i :: pos <= i < end ==> IsDigit(input[i]))
    requires end < |input| ==> !IsDigit(input[end])
    ensures DigitsEnd(input, pos) == end
    decreases end - pos
  {
    if pos < end {
      DigitsEndAt(input, pos + 1, end);
    }
  }

  // What follows the parts read so far does not continue them.
  lemma IntegerScanned(sign: string, integer: string, rest: string)
    requires SignPart(sign) && IntegerPart(integer) && (rest != "" ==> !IsDigit(rest[0]))
    ensures var text := sign + integer + rest;
      text != "" && (text[0] == '-' || IsDigit(text[0])) && IntegerEnd(text, 0) == Ok(|sign| + |integer|)
  {
    var text := sign + integer + rest;
    var pos, end := |sign|, |sign| + |integer|;
    assert forall i :: pos <= i < end ==> text[i] == integer[i - pos];
    assert rest != "" ==> text[end] == rest[0];
    assert sign != "" ==> text[0] == '-';
    if integer != "0" {
      DigitsEndAt(text, pos, end);
    }
  }

  lemma FractionScanned(front: string, fraction: string, rest: string)
    requires FractionPart(fraction) && (rest != "" ==> !IsDigit(rest[0]) && rest[0] != '.')
    ensures FractionEnd(front + fraction + rest, |front|) == Ok(|front| + |fraction|)
  {
    var text := front + fraction + rest;
    var pos, end := |front|, |front| + |fraction|;
    assert forall i :: pos <= i < end ==> text[i] == fraction[i - pos];
    assert rest != "" ==> text[end] == rest[0];
    if fraction != "" {
      assert forall i :: 1 <= i < |fraction| ==> fraction[i] == fraction[1..][i - 1];
      DigitsEndAt(text, pos + 1, end);
    }
  }

  lemma ExponentScanned(front: string, exponent: string)
    requires ExponentPart(exponent)
    ensures ExponentEnd(front + exponent, |front|) == Ok(|front| + |exponent|)
  {
    var text := front + exponent;
    assert forall i :: 0 <= i < |exponent| ==> text[|front| + i] == exponent[i];
    if exponent != "" {
      var k := if Digits(exponent[1..]) then 1 else 2;
      assert forall i :: k <= i < |exponent| ==> exponent[i] == exponent[k..][i - k];
      assert exponent[k] == exponent[k..][0];
      DigitsEndAt(text, |front| + k, |text|);
    }
  }

  lemma ScannedParts(text: string)
    requires text != "" && (text[0] == '-' || IsDigit(text[0])) && NumberEnd(text, 0) == Ok(|text|)
    ensures IsNumber(text)
  {
    hide IntegerEnd, FractionEnd, ExponentEnd, IntegerPart, FractionPart, ExponentPart, SignPart;
    var pos := if text[0] == '-' then 1 else 0;
    var integer := IntegerEnd(text, 0).value;
    var fraction := FractionEnd(text, integer).value;
    assert text == text[..pos] + text[pos..integer] + text[integer..fraction] + text[fraction..];
    IntegerFound(text);
    FractionFound(text, integer);
    ExponentFound(text, fraction);
    assert Parts(text[..pos], text[pos..integer], text[integer..fraction], text[fraction..]);
  }

  lemma IntegerFound(text: string)
    requires text != "" && (text[0] == '-' || IsDigit(text[0])) && IntegerEnd(text, 0).Ok?
    ensures var pos := if text[0] == '-' then 1 else 0;
      SignPart(text[..pos]) && pos <= IntegerEnd(text, 0).value && IntegerPart(text[pos..IntegerEnd(text, 0).value])
  {
    var pos := if text[0] == '-' then 1 else 0;
    var end := IntegerEnd(text, 0).value;
    assert text[pos..end] != "" && text[pos..end][0] == text[pos];
    assert pos == 1 ==> text[..1] == "-";
  }

  lemma FractionFound(text: string, pos: nat)
    requires pos <= |text| && FractionEnd(text, pos).Ok?
    ensures FractionPart(text[pos..FractionEnd(text, pos).value])
  {}

  lemma ExponentFound(text: string, pos: nat)
    requires pos <= |text| && ExponentEnd(text, pos) == Ok(|text|)
    ensures ExponentPart(text[pos..])
  {
    var exponent := text[pos..];
    if exponent != "" {
      assert exponent[0] == text[pos];
      assert |exponent| > 1 ==> exponent[1] == text[pos + 1];
      assert exponent[1..] == text[pos + 1..];
      assert |exponent| > 1 ==> exponent[2..] == text[pos + 2..];
    }
  }

  /** The scanner takes a whole text for one number if and only if it is one. */
  lemma NumberExactly(text: string)
    ensures text != "" && (text[0] == '-' || IsDigit(text[0])) && NumberEnd(text, 0) == Ok(|text|) <==> IsNumber(text)
  {
    hide IntegerEnd, FractionEnd, ExponentEnd, IntegerPart, FractionPart, ExponentPart;
    if text != "" && (text[0] == '-' || IsDigit(text[0])) && NumberEnd(text, 0) == Ok(|text|) {
      ScannedParts(text);
    }
    if IsNumber(text) {
      var sign, integer, fraction, exponent :|
        Parts(sign, integer, fraction, exponent) && text == sign + integer + fraction + exponent;
      FirstOfParts(fraction, exponent);
      assert text == sign + integer + (fraction + exponent);
      IntegerScanned(sign, integer, fraction + exponent);
      assert text == (sign + integer) + fraction + exponent;
      FractionScanned(sign + integer, fraction, exponent);
      assert text == (sign + integer + fraction) + exponent;
      ExponentScanned(sign + integer + fraction, exponent);
    }
  }

  lemma FirstOfParts(fraction: string, exponent: string)
    requires FractionPart(fraction) && ExponentPart(exponent)
    ensures var rest := fraction + exponent; rest != "" ==> !IsDigit(rest[0])
    ensures exponent != "" ==> !IsDigit(exponent[0]) && exponent[0] != '.'
  {}
}
