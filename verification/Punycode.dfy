/** Punycode as RFC 3492 defines it: the bias adaptation of section 6.1 and the decoder of section 6.2. */
module Punycode {
  import opened Options
  import opened Products

  const BASE: nat := 36
  const TMIN: nat := 1
  const TMAX: nat := 26
  const INITIAL_N: nat := 128
  const INITIAL_BIAS: nat := 72

  /** The threshold for the digit of weight index k / 36. */
  function Threshold(k: nat, bias: nat): (t: nat)
    ensures TMIN <= t <= TMAX
  {
    if k <= bias + TMIN then TMIN else if k >= bias + TMAX then TMAX else k - bias
  }

  function Scale(delta: nat, k: nat): nat {
    if delta > ((BASE - TMIN) * TMAX) / 2 then Scale(delta / (BASE - TMIN), k + BASE)
    else k + ((BASE - TMIN + 1) * delta) / (delta + 38)
  }

  lemma {:induction false} ScaleGoesOn(delta: nat, bias: nat)
    ensures Scale(delta, bias) ==
            if delta > 455 then Scale(delta / 35, bias + 36) else bias + 36 * delta / (delta + 38)
  {
  }

  /** Section 6.1. */
  function Adapt(delta: nat, points: nat, first: bool): nat
    requires points > 0
  {
    var damped := if first then delta / 700 else delta / 2;
    DivisionShrinks(damped, points);
    Scale(damped + damped / points, 0)
  }

  function Power35(k: nat): (p: nat)
    ensures p > 0
  {
    if k == 0 then 1 else Product(35, Power35(k - 1))
  }

  /** k is the least number of divisions by 35 that bring d down to 455. */
  ghost predicate Settles(d: nat, k: nat) {
    d / Power35(k) <= 455 && forall j: nat :: j < k ==> d / Power35(j) > 455
  }

  /** The number of states, damped, and increased by its share of the points. */
  function Damped(delta: nat, points: nat, first: bool): nat
    requires points > 0
  {
    var d := if first then delta / 700 else delta / 2;
    DivisionShrinks(d, points);
    d + d / points
  }

  /** 36 for each division, and a share of 36 for what is left. */
  function Share(d: nat, k: nat): nat {
    36 * k + 36 * (d / Power35(k)) / (d / Power35(k) + 38)
  }

  /** What the adaptation computes, in plain numbers: what is damped is divided by 35 as often as it exceeds 455. */
  ghost predicate IsAdapted(bias: nat, delta: nat, points: nat, first: bool)
    requires points > 0
  {
    exists k: nat :: Settles(Damped(delta, points, first), k) && bias == Share(Damped(delta, points, first), k)
  }

  lemma {:induction false} ScaleIs(d: nat, from: nat) returns (k: nat)
    ensures Settles(d, k) && Scale(d, from) == from + Share(d, k)
    decreases d
  {
    if d > 455 {
      k := ScaleIs(d / 35, from + 36);
      OneMoreDivision(d, k);
      hide Settles, Share;
      k := k + 1;
    } else {
      k := 0;
      assert Power35(0) == 1;
    }
  }

  lemma PowersDivide(d: nat, j: nat)
    ensures d / 35 / Power35(j) == d / Power35(j + 1)
  {
    hide Product;
    DivideTwice(d, 35, Power35(j));
  }

  lemma {:induction false} OneMoreDivision(d: nat, k: nat)
    requires d > 455 && Settles(d / 35, k)
    ensures Settles(d, k + 1) && Share(d, k + 1) == 36 + Share(d / 35, k)
  {
    assert Power35(0) == 1;
    PowersDivide(d, k);
    hide Power35;
    forall j: nat | j < k + 1 ensures d / Power35(j) > 455 {
      if j > 0 {
        PowersDivide(d, j - 1);
      }
    }
  }

  lemma AdaptIsDamped(delta: nat, points: nat, first: bool)
    requires points > 0
    ensures Adapt(delta, points, first) == Scale(Damped(delta, points, first), 0)
  {
    hide Scale;
  }

  lemma AdaptIsAdapted(delta: nat, points: nat, first: bool)
    requires points > 0
    ensures IsAdapted(Adapt(delta, points, first), delta, points, first)
  {
    hide Scale, Settles, Share, Damped, Adapt;
    AdaptIsDamped(delta, points, first);
    var k := ScaleIs(Damped(delta, points, first), 0);
  }

  /** Nothing else is. */
  lemma AdaptIsOnly(bias: nat, delta: nat, points: nat, first: bool)
    requires points > 0 && IsAdapted(bias, delta, points, first)
    ensures bias == Adapt(delta, points, first)
  {
    hide Scale, Share, Power35, Damped, Adapt;
    var d := Damped(delta, points, first);
    AdaptIsDamped(delta, points, first);
    var k := ScaleIs(d, 0);
    var l: nat :| Settles(d, l) && bias == Share(d, l);
    assert !(k < l) && !(l < k);
  }

  function DigitValue(c: char): Option<nat> {
    if 'a' <= c <= 'z' then Some(c as nat - 'a' as nat)
    else if 'A' <= c <= 'Z' then Some(c as nat - 'A' as nat)
    else if '0' <= c <= '9' then Some(c as nat - '0' as nat + 26)
    else None
  }

  function Digit(d: nat): (c: char)
    requires d < BASE
    ensures DigitValue(c) == Some(d)
  {
    if d < 26 then 'a' + d as char else '0' + (d - 26) as char
  }

  /** The variables of the decoder between two insertions. */
  datatype Decoder = Decoder(n: nat, i: nat, bias: nat, output: seq<nat>)

  /** Reads one number, adding it to i, and what input is left. */
  function ReadNumber(input: string, k: nat, bias: nat, i: nat, w: nat): (r: Option<(nat, string)>)
    ensures r.Some? ==> r.value.0 >= i && |r.value.1| < |input|
  {
    if input == [] || DigitValue(input[0]) == None then None
    else
      var digit := DigitValue(input[0]).value;
      var t := Threshold(k, bias);
      if digit < t then Some((i + Product(digit, w), input[1..]))
      else ReadNumber(input[1..], k + BASE, bias, i + Product(digit, w), Product(BASE - t, w))
  }

  function Insert(d: Decoder, i: nat): Decoder
    requires i >= d.i
  {
    var points := |d.output| + 1;
    var at := i % points;
    var n := d.n + i / points;
    Decoder(n, at + 1, Adapt(i - d.i, points, d.i == 0), d.output[..at] + [n] + d.output[at..])
  }

  /** The main loop. */
  function Run(d: Decoder, input: string): Option<Decoder>
    decreases |input|
  {
    if input == [] then Some(d)
    else
      match ReadNumber(input, BASE, d.bias, d.i, 1)
      case None => None
      case Some((i, rest)) => Run(Insert(d, i), rest)
  }

  /** The position of the last delimiter. */
  function LastDelimiter(input: string): (p: Option<nat>)
    ensures p.Some? ==> p.value < |input|
  {
    if input == [] then None
    else if input[|input| - 1] == '-' then Some(|input| - 1)
    else LastDelimiter(input[..|input| - 1])
  }

  function Points(s: string): seq<nat> {
    seq(|s|, j requires 0 <= j < |s| => s[j] as nat)
  }

  /** Section 6.2. What precedes the last delimiter are the basic code points; a delimiter with nothing before it is
      none. */
  function Decode(input: string): Option<seq<nat>> {
    var split := match LastDelimiter(input) case Some(p) => p case None => 0;
    var rest := if split > 0 then input[split + 1..] else input;
    match Run(Decoder(INITIAL_N, 0, INITIAL_BIAS, Points(input[..split])), rest)
    case None => None
    case Some(d) => Some(d.output)
  }

  /** What is left of a number after its first digit, which is at least the threshold. */
  function FirstDigit(q: nat, t: nat): (d: nat)
    requires TMIN <= t <= TMAX && t <= q
    ensures t <= d < BASE
  {
    t + (q - t) % (BASE - t)
  }

  function OtherDigits(q: nat, t: nat): (r: nat)
    requires TMIN <= t <= TMAX && t <= q
    ensures r < q
  {
    DivisionShrinks(q - t, BASE - t);
    (q - t) / (BASE - t)
  }

  /** The number as the digits that are read back. */
  function Number(q: nat, k: nat, bias: nat): (s: string)
    decreases q
  {
    var t := Threshold(k, bias);
    if q < t then [Digit(q)] else [Digit(FirstDigit(q, t))] + Number(OtherDigits(q, t), k + BASE, bias)
  }

  lemma DigitWeight(q: nat, t: nat, w: nat)
    requires TMIN <= t <= TMAX && t <= q
    ensures Product(FirstDigit(q, t), w) + Product(OtherDigits(q, t), Product(BASE - t, w)) == Product(q, w)
  {
    var y, x := BASE - t, q - t;
    assert x == x % y + (x / y) * y;
    calc {
      (t + x % y) * w + (x / y) * (y * w);
      t * w + (x % y + (x / y) * y) * w;
      t * w + x * w;
      q * w;
    }
  }

  /** One digit is read. */
  lemma DigitIsRead(d: nat, rest: string, k: nat, bias: nat, i: nat, w: nat, t: nat)
    requires d < BASE && t == Threshold(k, bias)
    ensures ReadNumber([Digit(d)] + rest, k, bias, i, w)
         == if d < t then Some((i + Product(d, w), rest))
            else ReadNumber(rest, k + BASE, bias, i + Product(d, w), Product(BASE - t, w))
  {
    hide Threshold, Digit, Product;
    assert ([Digit(d)] + rest)[1..] == rest;
  }

  lemma {:induction false} NumberIsRead(q: nat, k: nat, bias: nat, i: nat, w: nat, rest: string)
    ensures ReadNumber(Number(q, k, bias) + rest, k, bias, i, w) == Some((i + Product(q, w), rest))
    decreases q
  {
    hide ReadNumber, Threshold, Digit, FirstDigit, OtherDigits, Product;
    var t := Threshold(k, bias);
    if q < t {
      DigitIsRead(q, rest, k, bias, i, w, t);
    } else {
      var digit, others := FirstDigit(q, t), OtherDigits(q, t);
      var number := Number(others, k + BASE, bias) + rest;
      assert Number(q, k, bias) + rest == [Digit(digit)] + number;
      DigitIsRead(digit, number, k, bias, i, w, t);
      NumberIsRead(others, k + BASE, bias, i + Product(digit, w), Product(BASE - t, w), rest);
      DigitWeight(q, t, w);
    }
  }

  lemma {:induction false} RunContinues(d: Decoder, input: string, rest: string)
    requires Run(d, input).Some?
    ensures Run(d, input + rest) == Run(Run(d, input).value, rest)
    decreases |input|
  {
    if input == [] {
      assert input + rest == rest;
    } else {
      ReadContinues(input, BASE, d.bias, d.i, 1, rest);
      var (i, left) := ReadNumber(input, BASE, d.bias, d.i, 1).value;
      RunContinues(Insert(d, i), left, rest);
    }
  }

  lemma {:induction false} ReadContinues(input: string, k: nat, bias: nat, i: nat, w: nat, rest: string)
    requires ReadNumber(input, k, bias, i, w).Some?
    ensures var (v, left) := ReadNumber(input, k, bias, i, w).value;
            ReadNumber(input + rest, k, bias, i, w) == Some((v, left + rest))
    decreases |input|
  {
    hide Product, Threshold, DigitValue;
    var digit := DigitValue(input[0]).value;
    var t := Threshold(k, bias);
    assert (input + rest)[1..] == input[1..] + rest;
    if digit >= t {
      ReadContinues(input[1..], k + BASE, bias, i + Product(digit, w), Product(BASE - t, w), rest);
    }
  }

  /** Writing one more number makes the decoder insert once more. */
  lemma NumberInserts(d: Decoder, input: string, e: Decoder, delta: nat)
    requires Run(d, input) == Some(e)
    ensures Run(d, input + Number(delta, BASE, e.bias)) == Some(Insert(e, e.i + delta))
  {
    var number := Number(delta, BASE, e.bias);
    RunContinues(d, input, number);
    NumberIsRead(delta, BASE, e.bias, e.i, 1, []);
    assert number + [] == number;
    assert Run(Insert(e, e.i + delta), []) == Some(Insert(e, e.i + delta));
  }

  lemma {:induction false} NumberHasNoDelimiter(input: string, k: nat, bias: nat, i: nat, w: nat)
    requires ReadNumber(input, k, bias, i, w).Some?
    ensures '-' in input ==> '-' in ReadNumber(input, k, bias, i, w).value.1
    decreases |input|
  {
    hide Product, Threshold;
    var digit := DigitValue(input[0]).value;
    var t := Threshold(k, bias);
    assert input == [input[0]] + input[1..];
    if digit >= t {
      NumberHasNoDelimiter(input[1..], k + BASE, bias, i + Product(digit, w), Product(BASE - t, w));
    }
  }

  lemma {:induction false} RunHasNoDelimiter(d: Decoder, input: string)
    requires Run(d, input).Some?
    ensures '-' !in input
    decreases |input|
  {
    if input != [] {
      NumberHasNoDelimiter(input, BASE, d.bias, d.i, 1);
      var (i, rest) := ReadNumber(input, BASE, d.bias, d.i, 1).value;
      RunHasNoDelimiter(Insert(d, i), rest);
    }
  }

  lemma {:induction false} LastDelimiterIs(before: string, digits: string)
    requires '-' !in digits
    ensures LastDelimiter(before + "-" + digits) == Some(|before|) && LastDelimiter(digits) == None
  {
    var s := before + "-" + digits;
    if digits == [] {
      assert s[|s| - 1] == '-';
    } else {
      var init := digits[..|digits| - 1];
      assert s[..|s| - 1] == before + "-" + init;
      LastDelimiterIs(before, init);
    }
  }

  /** A text of basic code points, a delimiter if there are any, and digits. */
  lemma TextDecodes(basic: string, digits: string, d: Decoder)
    requires Run(Decoder(INITIAL_N, 0, INITIAL_BIAS, Points(basic)), digits) == Some(d)
    ensures Decode(basic + (if basic == [] then "" else "-") + digits) == Some(d.output)
  {
    RunHasNoDelimiter(Decoder(INITIAL_N, 0, INITIAL_BIAS, Points(basic)), digits);
    LastDelimiterIs(basic, digits);
    var text := basic + (if basic == [] then "" else "-") + digits;
    if basic == [] {
      assert text == digits && text[..0] == basic;
    } else {
      assert text == basic + "-" + digits && text[..|basic|] == basic && text[|basic| + 1..] == digits;
    }
  }
}
