/** Domain name labels as ASCII: the Punycode encoder of section 6.3 of RFC 3492, on 32-bit integers. */
module Idna {
  import opened MachineWords
  import opened FixedWidth
  import opened Options
  import opened Products
  import opened Utf8
  import opened Punycode
  import opened CodePointOrder

  const E2BIG: int := -7

  type UInt32 = x: int | 0 <= x < TWO_32

  /** The buffer that is written to, through a pointer that stops at its end; `text` is what would be written without
      end. */
  class Sink {
    const buffer: array<char>
    var pos: nat
    ghost var text: string

    ghost predicate Valid()
      reads this, buffer
    {
      pos == (if |text| <= buffer.Length then |text| else buffer.Length) && buffer[..pos] == text[..pos]
    }

    constructor (buffer: array<char>)
      ensures Valid() && this.buffer == buffer && text == []
    {
      this.buffer := buffer;
      pos, text := 0, [];
    }

    method Put(c: char)
      requires Valid()
      modifies this, buffer
      ensures Valid() && text == old(text) + [c]
    {
      if pos < buffer.Length {
        buffer[pos] := c;
        pos := pos + 1;
      }
      text := text + [c];
    }
  }

  const ALPHABET: string := "abcdefghijklmnopqrstuvwxyz0123456789"

  lemma AlphabetIsDigits(d: nat)
    requires d < BASE
    ensures ALPHABET[d] == Digit(d)
  {
    assert |ALPHABET| == BASE;
  }

  /** The digits of one number. */
  method WriteNumber(sink: Sink, delta: nat, bias: nat)
    requires sink.Valid()
    modifies sink, sink.buffer
    ensures sink.Valid() && sink.text == old(sink.text) + Number(delta, BASE, bias)
  {
    hide Threshold, Digit, FirstDigit, OtherDigits, Number, Sink.Valid;
    ghost var written := sink.text;
    var k: nat, q: nat := 36, delta;
    while true
      invariant sink.Valid() && k >= BASE && sink.text + Number(q, k, bias) == written + Number(delta, BASE, bias)
      decreases q
    {
      var t := 1;
      if k > bias {
        t := k - bias;
      }
      if t > 26 {
        t := 26;
      }
      ThresholdIs(k, bias, t);
      NumberStarts(sink.text, q, k, bias, t);
      if q < t {
        break;
      }
      var x := q - t;
      var y := 36 - t;
      DigitsAre(q, t);
      q := x / y;
      t := t + x % y;
      AlphabetIsDigits(t);
      sink.Put(ALPHABET[t]);
      k := k + 36;
    }
    AlphabetIsDigits(q);
    sink.Put(ALPHABET[q]);
  }

  lemma NumberStarts(text: string, q: nat, k: nat, bias: nat, t: nat)
    requires t == Threshold(k, bias)
    ensures if q < t then Number(q, k, bias) == [Digit(q)]
            else text + Number(q, k, bias) ==
                 text + [Digit(FirstDigit(q, t))] + Number(OtherDigits(q, t), k + BASE, bias)
  {
    hide Threshold, Digit, FirstDigit, OtherDigits;
  }

  lemma ThresholdIs(k: nat, bias: nat, t: nat)
    requires var u := if k > bias then k - bias else 1; t == if u > 26 then 26 else u
    ensures t == Threshold(k, bias)
  {
  }

  lemma DigitsAre(q: nat, t: nat)
    requires 1 <= t <= 26 && t <= q
    ensures (q - t) / (36 - t) == OtherDigits(q, t) && t + (q - t) % (36 - t) == FirstDigit(q, t)
  {
  }

  /** The bias adaptation, which fits 32 bits. */
  method NextBias(delta0: UInt32, points: UInt32, first: bool) returns (bias: nat)
    requires points > 0
    ensures bias == Adapt(delta0, points, first) && IsAdapted(bias, delta0, points, first)
  {
    hide Adapt, IsAdapted, Scale;
    AdaptIsAdapted(delta0, points, first);
    var delta: UInt32 := delta0 / 2;
    if first {
      delta := delta / 350;
    }
    DampedFits(delta0, delta, points);
    AdaptStarts(delta0, points, first, delta);
    delta := delta + delta / points;
    bias := 0;
    while delta > 35 * 26 / 2
      invariant Scale(delta, bias) == Adapt(delta0, points, first)
    {
      ScaleGoesOn(delta, bias);
      delta := delta / 35;
      bias := bias + 36;
    }
    ScaleGoesOn(delta, bias);
    var product: UInt32 := 36 * delta;
    bias := bias + product / (delta + 38);
  }

  lemma AdaptStarts(delta: nat, points: nat, first: bool, damped: nat)
    requires points > 0 && damped == if first then delta / 2 / 350 else delta / 2
    ensures 0 <= damped / points && Adapt(delta, points, first) == Scale(damped + damped / points, 0)
  {
    hide Scale;
    DivisionShrinks(damped, points);
  }

  lemma DampedFits(delta: nat, damped: nat, points: nat)
    requires points > 0 && damped <= delta / 2
    ensures 0 <= damped / points && damped + damped / points <= delta
  {
    DivisionShrinks(damped, points);
  }

  /** What the encoder's variables mean while it is at position j of its pass for n: the decoder, given the digits
      written so far, holds the code points before that position; delta counts its states from the last insertion up to
      here; todo counts the code points not yet written; and every number written so far fits 32 bits. */
  ghost predicate Tracks(cps: seq<nat>, n: nat, j: nat, d: Decoder, delta: nat, bias: nat, h: nat, first: bool,
                         todo: nat) {
    && j <= |cps| && INITIAL_N <= n && (d.n, d.i) == Origin(cps, n, j)
    && d.output == Kept(cps, n, j) && h == |d.output| && todo == |cps| - h
    && d.bias == bias && (first <==> d.i == 0)
    && delta == Steps(cps, n, j) && FitsUpTo(cps, n, j)
  }

  /** Inserting the code point at position j keeps the decoder in step. */
  lemma {:induction false} TracksInsert(cps: seq<nat>, n: nat, j: nat, d: Decoder, delta: nat, bias: nat, h: nat,
                                        first: bool, todo: nat)
    requires Tracks(cps, n, j, d, delta, bias, h, first, todo) && j < |cps| && cps[j] == n && delta <= MAX_32
    ensures todo > 0 && h < |cps| && d.bias == bias
    ensures Tracks(cps, n, j + 1, Insert(d, d.i + delta), 0, Adapt(delta, h + 1, first), h + 1, false, todo - 1)
  {
    hide Adapt, FitsUpTo, Kept, Origin, Steps, Rank, Insert;
    FitsInserts(cps, n, j);
    KeptInserts(cps, n, j);
    StepsInsert(cps, n, j);
    InsertIs(d, delta, n, Rank(cps, n, j));
  }

  lemma InsertIs(d: Decoder, delta: nat, n: nat, rank: nat)
    requires n >= d.n && rank <= |d.output|
    requires (d.i + delta) / (|d.output| + 1) == n - d.n && (d.i + delta) % (|d.output| + 1) == rank
    ensures Insert(d, d.i + delta)
         == Decoder(n, rank + 1, Adapt(delta, |d.output| + 1, d.i == 0), d.output[..rank] + [n] + d.output[rank..])
  {
    hide Adapt;
  }

  lemma TracksPast(cps: seq<nat>, n: nat, j: nat, d: Decoder, delta: nat, bias: nat, h: nat, first: bool, todo: nat)
    requires Tracks(cps, n, j, d, delta, bias, h, first, todo) && j < |cps| && cps[j] != n
    ensures Tracks(cps, n, j + 1, d, delta + if cps[j] < n then 1 else 0, bias, h, first, todo)
  {
    KeptIsSame(cps, n, j, n, j + 1);
    FitsSame(cps, n, j, n, j + 1);
    StepsPast(cps, n, j);
    hide FitsUpTo, Kept, Origin, Steps;
  }

  lemma TracksNext(cps: seq<nat>, n: nat, d: Decoder, delta: nat, bias: nat, h: nat, first: bool, todo: nat)
    requires Tracks(cps, n, |cps|, d, delta, bias, h, first, todo)
    ensures Tracks(cps, n + 1, 0, d, delta + 1, bias, h, first, todo)
  {
    RankAtEnds(cps, n);
    FitsSame(cps, n, |cps|, n + 1, 0);
    StepsNext(cps, n);
    hide FitsUpTo, Kept, Origin, Steps;
  }

  lemma TracksJump(cps: seq<nat>, n: nat, m: nat, d: Decoder, delta: nat, bias: nat, h: nat, first: bool, todo: nat)
    requires Tracks(cps, n, 0, d, delta, bias, h, first, todo) && n <= m
    requires forall i: nat :: i < |cps| ==> cps[i] < n || cps[i] >= m
    ensures Tracks(cps, m, 0, d, delta + Product(m - n, h + 1), bias, h, first, todo)
  {
    FitsSame(cps, n, 0, m, 0);
    StepsJump(cps, n, m);
    hide Product, FitsUpTo, Kept, Origin, Steps;
  }

  /** A delta that does not fit at the next code point equal to n means that the label's numbers do not. */
  lemma TracksTooFar(cps: seq<nat>, n: nat, j: nat, d: Decoder, delta: nat, bias: nat, h: nat, first: bool, todo: nat)
    requires Tracks(cps, n, j, d, delta, bias, h, first, todo) && n in cps && n !in cps[..j]
    requires delta > MAX_32 || (j < |cps| && cps[j] < n && delta == MAX_32)
    ensures Overflows(cps)
  {
    TooFar(cps, n, j);
  }

  ghost predicate IsText(s: seq<Byte>, cps: seq<nat>) {
    AreScalars(cps) && s == EncodeAll(cps)
  }

  /** The least code point that is not below n. */
  method Minimum(s: seq<Byte>, n: nat, ghost cps: seq<nat>) returns (m: UInt32)
    requires IsText(s, cps) && exists i: nat :: i < |cps| && cps[i] >= n
    ensures n <= m <= 0x10FFFF && m in cps
    ensures forall i: nat :: i < |cps| ==> cps[i] < n || cps[i] >= m
  {
    m := MAX_32;
    var p := 0;
    ghost var j: nat := 0;
    while p < |s|
      invariant j <= |cps| && p <= |s| && s[p..] == EncodeAll(cps[j..])
      invariant m == MAX_32 || (n <= m && m in cps)
      invariant forall i: nat :: i < j ==> cps[i] < n || cps[i] >= m
    {
      DecodesNext(s, p, cps[j..]);
      var (c, next) := Decode1(s, p);
      assert c == cps[j] && cps[j] in cps;
      p := next;
      if c >= n {
        if c < m {
          m := c;
        }
      }
      j := j + 1;
    }
    EndOfText(cps, j);
    ghost var i: nat :| i < |cps| && cps[i] >= n;
    assert cps[i] in cps && cps[i] >= m;
  }

  lemma TextEnds(cps: seq<nat>)
    requires AreScalars(cps) && EncodeAll(cps) == []
    ensures cps == []
  {
  }

  /** The digits a sink was given after some point are read by the decoder. */
  ghost predicate Reads(text: string, start: nat, initial: Decoder, d: Decoder) {
    start <= |text| && Run(initial, text[start..]) == Some(d) && AreLower(text[start..])
  }

  /** The digits that are written: letters are small. */
  ghost predicate AreLower(digits: string) {
    forall c :: c in digits ==> 'a' <= c <= 'z' || '0' <= c <= '9'
  }

  lemma {:induction false} NumberIsLower(q: nat, k: nat, bias: nat)
    ensures AreLower(Number(q, k, bias))
    decreases q
  {
    hide Threshold, FirstDigit, OtherDigits;
    if q >= Threshold(k, bias) {
      NumberIsLower(OtherDigits(q, Threshold(k, bias)), k + BASE, bias);
    }
  }

  lemma ReadsNumber(text: string, start: nat, initial: Decoder, d: Decoder, delta: nat)
    requires Reads(text, start, initial, d)
    ensures Reads(text + Number(delta, BASE, d.bias), start, initial, Insert(d, d.i + delta))
  {
    NumberInserts(initial, text[start..], d, delta);
    NumberIsLower(delta, BASE, d.bias);
    assert (text + Number(delta, BASE, d.bias))[start..] == text[start..] + Number(delta, BASE, d.bias);
  }

  /** One pass: writes a number for every code point equal to n. */
  method WritePass(s: seq<Byte>, sink: Sink, n: UInt32, delta0: UInt32, bias0: nat, h0: UInt32, first0: bool,
                   todo0: UInt32,
                   ghost cps: seq<nat>, ghost start: nat, ghost initial: Decoder, ghost d0: Decoder)
      returns (ok: bool, delta: UInt32, bias: nat, h: UInt32, first: bool, todo: UInt32, ghost d: Decoder)
    requires IsText(s, cps) && |cps| < TWO_32 && n <= 0x10FFFF && sink.Valid() && Reads(sink.text, start, initial, d0)
    requires n in cps && todo0 > 0 && Tracks(cps, n, 0, d0, delta0, bias0, h0, first0, todo0)
    modifies sink, sink.buffer
    ensures sink.Valid() && old(sink.text) <= sink.text
    ensures ok ==> Reads(sink.text, start, initial, d) && Tracks(cps, n, |cps|, d, delta, bias, h, first, todo)
    ensures ok ==> delta < |cps| && todo < todo0
    ensures !ok ==> Overflows(cps)
  {
    hide Product, Insert, Number, Adapt, Run, Sink.Valid, EncodeAll, Decode1, Kept, Width, Tracks, Reads;
    delta, bias, h, first, todo, d := delta0, bias0, h0, first0, todo0, d0;
    var p := 0;
    ghost var j: nat := 0;
    while p < |s|
      invariant j <= |cps| && p <= |s| && s[p..] == EncodeAll(cps[j..])
      invariant sink.Valid() && old(sink.text) <= sink.text && Reads(sink.text, start, initial, d)
      invariant Tracks(cps, n, j, d, delta, bias, h, first, todo)
      invariant if n in cps[..j] then delta < j && todo < todo0 else todo == todo0
    {
      DecodesNext(s, p, cps[j..]);
      var (c, next) := Decode1(s, p);
      assert c == cps[j] && cps[..j + 1] == cps[..j] + [c] && cps[j..][1..] == cps[j + 1..];
      p := next;
      if c != n {
        if c < n {
          if delta == MAX_32 {
            TracksTooFar(cps, n, j, d, delta, bias, h, first, todo);
          }
          TracksPast(cps, n, j, d, delta, bias, h, first, todo);
          delta := (delta + 1) % TWO_32;
          if delta == 0 {
            ok := false;
            return;
          }
        } else {
          TracksPast(cps, n, j, d, delta, bias, h, first, todo);
        }
      } else {
        TracksInsert(cps, n, j, d, delta, bias, h, first, todo);
        ReadsNumber(sink.text, start, initial, d, delta);
        WriteNumber(sink, delta, bias);
        d := Insert(d, d.i + delta);
        bias := NextBias(delta, h + 1, first);
        first := false;
        h := h + 1;
        delta := 0;
        todo := todo - 1;
      }
      j := j + 1;
    }
    EndOfText(cps, j);
    ok := true;
  }

  lemma EndOfText(cps: seq<nat>, j: nat)
    requires AreScalars(cps) && j <= |cps| && EncodeAll(cps[j..]) == []
    ensures j == |cps| && cps[..j] == cps
  {
    TextEnds(cps[j..]);
  }

  /** The basic code points of a label. */
  function Basic(cps: seq<nat>): (basic: seq<nat>)
    ensures |basic| <= |cps|
  {
    Kept(cps, INITIAL_N, 0)
  }

  lemma {:induction false} BasicAreSmall(cps: seq<nat>)
    ensures forall c :: c in Basic(cps) ==> c < INITIAL_N
  {
    if cps != [] {
      var last := |cps| - 1;
      BasicAreSmall(cps[..last]);
      assert Basic(cps) == Basic(cps[..last]) + if cps[last] < INITIAL_N then [cps[last]] else [];
    }
  }

  function Chars(cps: seq<nat>): (s: string)
    ensures |s| == |cps|
  {
    seq(|cps|, i requires 0 <= i < |cps| => if cps[i] < INITIAL_N then cps[i] as char else '?')
  }

  lemma BasicAdvances(cps: seq<nat>, j: nat)
    requires j < |cps|
    ensures Basic(cps[..j + 1]) == Basic(cps[..j]) + if cps[j] < INITIAL_N then [cps[j]] else []
  {
    assert cps[..j + 1][..j] == cps[..j];
  }

  lemma {:induction false} BasicGrows(cps: seq<nat>, j: nat)
    requires j <= |cps|
    ensures Basic(cps[..j]) <= Basic(cps)
  {
    if j < |cps| {
      var init := cps[..|cps| - 1];
      assert init[..j] == cps[..j];
      BasicGrows(init, j);
    } else {
      assert cps[..j] == cps;
    }
  }

  /** How many basic code points the label has, and how many others. */
  method CountPoints(s: seq<Byte>, ghost cps: seq<nat>) returns (h: UInt32, todo: UInt32)
    requires IsText(s, cps) && |cps| < TWO_32
    ensures h == |Basic(cps)| && todo == |cps| - h
  {
    h, todo := 0, 0;
    var p := 0;
    ghost var j: nat := 0;
    while p < |s|
      invariant j <= |cps| && p <= |s| && s[p..] == EncodeAll(cps[j..])
      invariant h == |Basic(cps[..j])| && todo == j - h
    {
      DecodesNext(s, p, cps[j..]);
      BasicAdvances(cps, j);
      var (c, next) := Decode1(s, p);
      p := next;
      if c < 128 {
        h := h + 1;
      } else {
        todo := todo + 1;
      }
      j := j + 1;
    }
    EndOfText(cps, j);
  }

  /** Copies the basic code points, in their order. */
  method WriteBasic(s: seq<Byte>, sink: Sink, h: UInt32, ghost cps: seq<nat>)
    requires IsText(s, cps) && sink.Valid() && h == |Basic(cps)|
    modifies sink, sink.buffer
    ensures sink.Valid() && sink.text == old(sink.text) + Chars(Basic(cps))
  {
    hide Sink.Valid;
    var x, p := 0, 0;
    ghost var j: nat := 0;
    while p < |s|
      invariant j <= |cps| && p <= |s| && s[p..] == EncodeAll(cps[j..])
      invariant sink.Valid() && sink.text == old(sink.text) + Chars(Basic(cps[..j])) && x == |Basic(cps[..j])|
    {
      DecodesNext(s, p, cps[j..]);
      BasicAdvances(cps, j);
      BasicGrows(cps, j + 1);
      var (c, next) := Decode1(s, p);
      p := next;
      j := j + 1;
      if c > 127 {
        continue;
      }
      sink.Put(c as char);
      x := x + 1;
      assert sink.text == old(sink.text) + Chars(Basic(cps[..j]));
      if x == h {
        assert Basic(cps[..j]) == Basic(cps);
        return;
      }
    }
    EndOfText(cps, j);
  }

  lemma GuardHolds(x: nat, y: nat, room: nat)
    requires y > 0
    ensures x <= room / y <==> Product(x, y) <= room
  {
    var q: nat := room / y;
    assert room == q * y + room % y;
    if x < q {
      ProductGrows(x, q, y);
    } else if q < x {
      ProductGrows(q, x, y);
    }
  }

  /** A label of basic code points only stays as it is; any other becomes a text that Punycode decodes to it: the basic
      code points, a delimiter if there are any, and digits. */
  ghost predicate IsAscii(text: string, cps: seq<nat>) {
    if |Basic(cps)| == |cps| then text == Chars(cps)
    else
      && "xn--" <= text && Decode(text[4..]) == Some(cps)
      && exists digits {:trigger AreLower(digits)} ::
           AreLower(digits) && text == "xn--" + (Chars(Basic(cps)) + (if Basic(cps) == [] then "" else "-") + digits)
  }

  method ToAsciiLabel(s: seq<Byte>, sink: Sink, ghost cps: seq<nat>) returns (rc: int)
    requires IsText(s, cps) && |cps| < TWO_32 && sink.Valid()
    modifies sink, sink.buffer
    ensures sink.Valid() && old(sink.text) <= sink.text
    ensures rc == if Overflows(cps) then E2BIG else if |Basic(cps)| == |cps| then |cps| else 0
    ensures !Overflows(cps) ==> IsAscii(sink.text[|old(sink.text)|..], cps)
  {
    hide Sink.Valid, Run, EncodeAll, Basic, Kept, Overflows, IsText, Chars, Decode;
    var h, todo := CountPoints(s, cps);
    if todo > 0 {
      sink.Put('x');
      sink.Put('n');
      sink.Put('-');
      sink.Put('-');
    }
    WriteBasic(s, sink, h, cps);
    if todo == 0 {
      AsciiFits(cps);
      assert sink.text[|old(sink.text)|..] == Chars(cps);
      return h;
    }
    if h > 0 {
      sink.Put('-');
    }
    ghost var d;
    ghost var start := |sink.text|;
    rc, d := WriteOthers(s, sink, h, todo, cps);
    if rc == 0 {
      LabelDecodes(old(sink.text), sink.text, start, cps, d);
    }
  }

  lemma AsciiFits(cps: seq<nat>)
    requires |Basic(cps)| == |cps|
    ensures Basic(cps) == cps && !Overflows(cps)
  {
    KeptAll(cps, INITIAL_N, 0);
    NoneBelow(cps);
    FitsAll(cps, INITIAL_N, 0);
  }

  lemma LabelDecodes(before: string, text: string, start: nat, cps: seq<nat>, d: Decoder)
    requires |Basic(cps)| < |cps| && d.output == cps && Reads(text, start, Initial(cps), d)
    requires text[..start] == before + "xn--" + Chars(Basic(cps)) + if Basic(cps) == [] then "" else "-"
    ensures before <= text && IsAscii(text[|before|..], cps)
  {
    var basic, digits := Chars(Basic(cps)), text[start..];
    var delimiter := if basic == [] then "" else "-";
    CharsBack(cps);
    TextDecodes(basic, digits, d);
    Sliced(before, text, start, basic, delimiter);
    hide Decode, Run, Basic, Chars, Points;
  }

  lemma Sliced(before: string, text: string, start: nat, basic: string, delimiter: string)
    requires start <= |text| && text[..start] == before + "xn--" + basic + delimiter
    ensures before <= text && "xn--" <= text[|before|..] && text[|before|..][4..] == basic + delimiter + text[start..]
  {
    assert text == before + ("xn--" + (basic + delimiter + text[start..])) by {
      assert text == text[..start] + text[start..];
    }
    assert text[|before|..] == "xn--" + (basic + delimiter + text[start..]);
  }

  lemma CharsBack(cps: seq<nat>)
    ensures Points(Chars(Basic(cps))) == Basic(cps)
  {
    BasicAreSmall(cps);
    assert forall i: nat :: i < |Basic(cps)| ==> Basic(cps)[i] in Basic(cps);
  }

  function Initial(cps: seq<nat>): Decoder {
    Decoder(INITIAL_N, 0, INITIAL_BIAS, Basic(cps))
  }

  /** Goes on to the next larger code point of the label, and makes a pass for it. */
  method NextPoint(s: seq<Byte>, sink: Sink, n0: UInt32, delta0: UInt32, bias0: nat, h0: UInt32, first0: bool,
                   todo0: UInt32,
                   ghost cps: seq<nat>, ghost start: nat, ghost initial: Decoder, ghost d0: Decoder)
      returns (ok: bool, n: UInt32, delta: UInt32, bias: nat, h: UInt32, first: bool, todo: UInt32, ghost d: Decoder)
    requires IsText(s, cps) && |cps| < TWO_32 && sink.Valid() && Reads(sink.text, start, initial, d0)
    requires todo0 > 0 && Tracks(cps, n0, 0, d0, delta0, bias0, h0, first0, todo0)
    modifies sink, sink.buffer
    ensures sink.Valid() && old(sink.text) <= sink.text
    ensures ok ==> n <= 0x11_0000 && todo < todo0
    ensures ok ==> Reads(sink.text, start, initial, d) && Tracks(cps, n, 0, d, delta, bias, h, first, todo)
    ensures !ok ==> Overflows(cps)
  {
    hide Sink.Valid, Run, EncodeAll, Reads, Tracks, Product, Basic, Kept;
    bias, h, first, todo, d := bias0, h0, first0, todo0, d0;
    TracksMore(cps, n0, d0, delta0, bias0, h0, first0, todo0);
    n := Minimum(s, n0, cps);
    ok, delta := AddProduct(delta0, n - n0, h0 + 1);
    TracksJump(cps, n0, n, d0, delta0, bias0, h0, first0, todo0);
    if !ok {
      TracksTooFar(cps, n, 0, d0, delta0 + Product(n - n0, h0 + 1), bias0, h0, first0, todo0);
      return;
    }
    ok, delta, bias, h, first, todo, d := WritePass(s, sink, n, delta, bias0, h0, first0, todo0, cps, start, initial,
                                                    d0);
    if !ok {
      return;
    }
    TracksNext(cps, n, d, delta, bias, h, first, todo);
    delta := delta + 1;
    n := n + 1;
  }

  /** The main loop: one pass for each code point that is not basic, in increasing order. */
  method WriteOthers(s: seq<Byte>, sink: Sink, h0: UInt32, todo0: UInt32, ghost cps: seq<nat>)
    returns (rc: int, ghost d: Decoder)
    requires IsText(s, cps) && |cps| < TWO_32 && sink.Valid() && h0 == |Basic(cps)| && todo0 == |cps| - h0
    modifies sink, sink.buffer
    ensures sink.Valid() && old(sink.text) <= sink.text
    ensures rc == if Overflows(cps) then E2BIG else 0
    ensures rc == 0 ==> d.output == cps && Reads(sink.text, |old(sink.text)|, Initial(cps), d)
  {
    ghost var start, initial := |sink.text|, Initial(cps);
    StartsTracking(cps);
    d := initial;
    assert Reads(sink.text, start, initial, d);
    hide Sink.Valid, Run, EncodeAll, Reads, Tracks, Product, Basic, Kept, Initial, IsText;
    var n: UInt32, bias: nat, delta: UInt32, first, h, todo := 128, 72, 0, true, h0, todo0;
    while todo > 0
      invariant sink.Valid() && old(sink.text) <= sink.text
      invariant Reads(sink.text, start, initial, d) && Tracks(cps, n, 0, d, delta, bias, h, first, todo)
      decreases todo
    {
      var ok;
      ok, n, delta, bias, h, first, todo, d := NextPoint(s, sink, n, delta, bias, h, first, todo, cps, start, initial,
                                                         d);
      if !ok {
        return E2BIG, d;
      }
    }
    TracksAll(cps, n, d, delta, bias, h, first, todo);
    return 0, d;
  }

  /** Adds to delta unless 32 bits would not hold the sum. */
  method AddProduct(delta: UInt32, x: UInt32, y: UInt32) returns (ok: bool, sum: UInt32)
    requires y > 0
    ensures ok <==> delta + Product(x, y) <= MAX_32
    ensures ok ==> sum == delta + Product(x, y)
  {
    GuardHolds(x, y, MAX_32 - delta);
    if x > (MAX_32 - delta) / y {
      return false, 0;
    }
    return true, delta + x * y;
  }

  lemma {:induction false} NoneBelow(cps: seq<nat>)
    ensures Latest(cps, INITIAL_N, 0) == None && FitsUpTo(cps, INITIAL_N, 0)
  {
    if cps != [] {
      NoneBelow(cps[..|cps| - 1]);
    }
  }

  lemma StartsTracking(cps: seq<nat>)
    ensures Tracks(cps, INITIAL_N, 0, Initial(cps), 0, INITIAL_BIAS, |Basic(cps)|, true, |cps| - |Basic(cps)|)
  {
    NoneBelow(cps);
    RankAtEnds(cps, INITIAL_N);
    ProductOfZero(|Basic(cps)| + 1);
  }

  lemma TracksMore(cps: seq<nat>, n: nat, d: Decoder, delta: nat, bias: nat, h: nat, first: bool, todo: nat)
    requires Tracks(cps, n, 0, d, delta, bias, h, first, todo) && todo > 0
    ensures h < |cps| && exists i: nat :: i < |cps| && cps[i] >= n
  {
    KeptMisses(cps, n);
  }

  lemma TracksAll(cps: seq<nat>, n: nat, d: Decoder, delta: nat, bias: nat, h: nat, first: bool, todo: nat)
    requires Tracks(cps, n, 0, d, delta, bias, h, first, todo) && todo == 0
    ensures d.output == cps && !Overflows(cps)
  {
    KeptAll(cps, n, 0);
    FitsAll(cps, n, 0);
  }
}
