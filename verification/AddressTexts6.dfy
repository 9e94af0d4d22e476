/** IPv6 addresses as text: what is printed, what is parsed, and that the parser gives back what was printed. */
module AddressTexts6 {
  import opened FixedWidth
  import opened Options
  import opened AddressTexts

  type Address6 = a: seq<Byte> | |a| == 16 witness seq(16, _ => 0)

  function Word(high: Byte, low: Byte): (w: nat)
    ensures w < 0x10000
  {
    var h: nat := high;
    h * 256 + low
  }

  function Words(a: Address6): (w: seq<nat>)
    ensures |w| == 8 && forall i: nat {:trigger w[i]} :: i < 8 ==> w[i] == Word(a[2 * i], a[2 * i + 1])
  {
    seq(8, i requires 0 <= i < 8 => Word(a[2 * i], a[2 * i + 1]))
  }

  /** A run of words; base is -1 for none. */
  datatype Run = Run(base: int, len: int)

  ghost predicate IsZeroRun(words: seq<nat>, base: int, len: int) {
    0 <= base && 0 <= len && base + len <= |words| && forall i :: base <= i < base + len ==> words[i] == 0
  }

  /** The run that is abbreviated: none, or the first longest one of at least two zero words. */
  ghost predicate IsBest(words: seq<nat>, best: Run) {
    if best.base == -1 then forall b, l :: IsZeroRun(words, b, l) ==> l < 2
    else
      && 2 <= best.len && IsZeroRun(words, best.base, best.len)
      && forall b, l :: IsZeroRun(words, b, l) ==> l < best.len || (l == best.len && best.base <= b)
  }

  /** What the text and its parsing need of the run. */
  ghost predicate IsAbbreviable(words: seq<nat>, best: Run) {
    best.base != -1 ==> 2 <= best.len && IsZeroRun(words, best.base, best.len)
  }

  predicate Inside(best: Run, i: int) {
    best.base != -1 && best.base <= i < best.base + best.len
  }

  /** An encapsulated IPv4 address: its last four bytes are printed as such. */
  predicate Encapsulates(words: seq<nat>, best: Run, i: int)
    requires |words| == 8
  {
    i == 6 && best.base == 0 &&
    (best.len == 6 || (best.len == 7 && words[7] != 0x0001) || (best.len == 5 && words[5] == 0xffff))
  }

  /** The text from word i on. */
  function Format(a: Address6, best: Run, i: nat): string
    requires i <= 8
    decreases 8 - i
  {
    if i == 8 then (if best.base != -1 && best.base + best.len == 8 then ":" else "")
    else if Inside(best, i) then (if i == best.base then ":" else "") + Format(a, best, i + 1)
    else
      (if i != 0 then ":" else "") +
      if Encapsulates(Words(a), best, i) then Text4(a[12..16]) + (if best.base + best.len == 8 then ":" else "")
      else Hex(Words(a)[i]) + Format(a, best, i + 1)
  }

  /** What the parser has: the bytes so far, where among them the :: was, the text since the last colon, and the digits
      and value of the current word. */
  datatype Scan6 = Scan6(bytes: seq<Byte>, colon: Option<nat>, token: string, seen: nat, val: nat)

  function WordBytes(val: nat): (b: seq<Byte>)
    ensures |b| == 2
  {
    [val / 256 % 256, val % 256]
  }

  function Run6(st: Scan6, s: string): Option<Scan6>
    decreases |s|
  {
    if s == "" then Some(st)
    else
      var ch, rest := s[0], s[1..];
      match HexValue(ch)
      case Some(d) =>
        if st.seen + 1 > 4 then None else Run6(st.(val := st.val * 16 + d, seen := st.seen + 1), rest)
      case None =>
        if ch == ':' then
          if st.seen == 0 then
            if st.colon.Some? then None else Run6(st.(colon := Some(|st.bytes|), token := rest), rest)
          else if rest == "" || |st.bytes| + 2 > 16 then None
          else Run6(Scan6(st.bytes + WordBytes(st.val), st.colon, rest, 0, 0), rest)
        else if ch == '.' && |st.bytes| + 4 <= 16 then
          match Parse4(st.token)
          case Some(v4) => Some(st.(bytes := st.bytes + v4, seen := 0))
          case None => None
        else None
  }

  /** The last word, and the zeros that the :: stands for. */
  function Finish(st: Scan6): Option<seq<Byte>> {
    if st.seen > 0 && |st.bytes| + 2 > 16 then None
    else
      var bytes := st.bytes + if st.seen > 0 then WordBytes(st.val) else [];
      match st.colon
      case Some(c) =>
        if |bytes| < 16 && c <= |bytes| then Some(bytes[..c] + Zeros(16 - |bytes|) + bytes[c..]) else None
      case None => if |bytes| == 16 then Some(bytes) else None
  }

  /** The address a text means, if it is one. */
  function Parse6(s: string): Option<seq<Byte>> {
    if s != "" && s[0] == ':' && !(|s| > 1 && s[1] == ':') then None
    else
      var src := if s != "" && s[0] == ':' then s[1..] else s;
      match Run6(Scan6([], None, src, 0, 0), src)
      case None => None
      case Some(st) => Finish(st)
  }

  // Reading what was printed.

  function Continue(st: Scan6, s: string): Option<seq<Byte>> {
    match Run6(st, s)
    case None => None
    case Some(end) => Finish(end)
  }

  lemma HexDigit(d: nat)
    requires d < 16
    ensures HexValue(Digit(d)) == Some(d)
  {
  }

  lemma Nibbles(w: nat)
    ensures w / 16 * 16 + w % 16 == w && w / 256 * 16 + w / 16 % 16 == w / 16 && w / 4096 * 16 + w / 256 % 16 == w / 256
  {
    assert w / 16 / 16 == w / 256 && w / 256 / 16 == w / 4096;
  }

  lemma {:induction false} ReadsDigit(st: Scan6, c: char, rest: string)
    requires HexValue(c).Some? && st.seen < 4
    ensures Run6(st, [c] + rest) == Run6(st.(val := st.val * 16 + HexValue(c).value, seen := st.seen + 1), rest)
  {
    hide HexValue, Parse4, WordBytes;
    var s := [c] + rest;
    assert s[0] == c && s[1..] == rest;
  }

  lemma {:induction false} ReadsHexDigit(st: Scan6, d: nat, rest: string)
    requires d < 16 && st.seen < 4
    ensures Run6(st, [Digit(d)] + rest) == Run6(st.(val := st.val * 16 + d, seen := st.seen + 1), rest)
  {
    HexDigit(d);
    hide Run6, HexValue, Digit;
    ReadsDigit(st, Digit(d), rest);
  }

  /** Reading the digits of one word. */
  lemma ReadsHex(st: Scan6, w: nat, rest: string)
    requires w < 0x10000 && st.seen == 0 && st.val == 0
    ensures Run6(st, Hex(w) + rest) == Run6(st.(val := w, seen := |Hex(w)|), rest)
  {
    hide Run6, Digit;
    Nibbles(w);
    if w < 0x10 {
      ReadsHexDigit(st, w, rest);
    } else {
      var t1 := [Digit(w % 16)] + rest;
      var t2 := [Digit(w / 16 % 16)] + t1;
      var t3 := [Digit(w / 256 % 16)] + t2;
      if w < 0x100 {
        assert Hex(w) + rest == [Digit(w / 16)] + t1;
        ReadsHexDigit(st, w / 16, t1);
        ReadsHexDigit(st.(val := w / 16, seen := 1), w % 16, rest);
      } else if w < 0x1000 {
        assert Hex(w) + rest == [Digit(w / 256)] + t2;
        ReadsHexDigit(st, w / 256, t2);
        ReadsHexDigit(st.(val := w / 256, seen := 1), w / 16 % 16, t1);
        ReadsHexDigit(st.(val := w / 16, seen := 2), w % 16, rest);
      } else {
        assert Hex(w) + rest == [Digit(w / 4096)] + t3;
        ReadsHexDigit(st, w / 4096, t3);
        ReadsHexDigit(st.(val := w / 4096, seen := 1), w / 256 % 16, t2);
        ReadsHexDigit(st.(val := w / 256, seen := 2), w / 16 % 16, t1);
        ReadsHexDigit(st.(val := w / 16, seen := 3), w % 16, rest);
      }
    }
  }

  lemma {:induction false} ReadsColon(st: Scan6, rest: string)
    ensures Run6(st, ":" + rest) ==
              if st.seen == 0 then
                if st.colon.Some? then None else Run6(st.(colon := Some(|st.bytes|), token := rest), rest)
              else if rest == "" || |st.bytes| + 2 > 16 then None
              else Run6(Scan6(st.bytes + WordBytes(st.val), st.colon, rest, 0, 0), rest)
  {
    assert (":" + rest)[1..] == rest;
  }

  /** The bytes of the words printed before word i. */
  ghost function Printed(a: Address6, best: Run, i: nat): seq<Byte>
    requires i <= 8 && IsAbbreviable(Words(a), best)
  {
    if best.base == -1 || i <= best.base then a[..2 * i]
    else if Inside(best, i) then a[..2 * best.base]
    else a[..2 * best.base] + a[2 * (best.base + best.len)..2 * i]
  }

  /** The parser's state before the text of word i. */
  ghost predicate ReadyFor(a: Address6, best: Run, i: nat, st: Scan6)
    requires i <= 8 && IsAbbreviable(Words(a), best)
  {
    && st.seen == 0 && st.val == 0 && st.bytes == Printed(a, best, i)
    && st.colon == if best.base != -1 && best.base < i then Some(2 * best.base) else None
  }

  lemma WordBytesOf(a: Address6, i: nat)
    requires i < 8
    ensures WordBytes(Words(a)[i]) == a[2 * i..2 * i + 2]
  {
    var h: nat, l: nat := a[2 * i], a[2 * i + 1];
    assert (h * 256 + l) / 256 == h && (h * 256 + l) % 256 == l;
  }

  lemma PrintedGrows(a: Address6, best: Run, i: nat)
    requires i < 8 && IsAbbreviable(Words(a), best) && !Inside(best, i)
    ensures !Inside(best, i + 1) || i + 1 == best.base
    ensures Printed(a, best, i + 1) == Printed(a, best, i) + WordBytes(Words(a)[i]) && |Printed(a, best, i)| <= 2 * i
  {
    WordBytesOf(a, i);
  }

  lemma WordIsZero(a: Address6, j: nat, k: nat)
    requires j < 8 && Words(a)[j] == 0 && (k == 2 * j || k == 2 * j + 1)
    ensures a[k] == 0
  {
    hide Words;
    assert Word(a[2 * j], a[2 * j + 1]) == 0;
  }

  lemma RunByteIsZero(a: Address6, best: Run, k: nat)
    requires IsAbbreviable(Words(a), best) && best.base != -1 && 2 * best.base <= k < 2 * (best.base + best.len)
    ensures a[k] == 0
  {
    hide Words;
    WordIsZero(a, k / 2, k);
  }

  lemma ZeroBytes(a: seq<Byte>, lo: nat, hi: nat)
    requires lo <= hi <= |a| && forall k: nat :: lo <= k < hi ==> a[k] == 0
    ensures a[lo..hi] == Zeros(hi - lo)
  {
  }

  lemma RunIsZero(a: Address6, best: Run)
    requires IsAbbreviable(Words(a), best) && best.base != -1
    ensures a[2 * best.base..2 * (best.base + best.len)] == Zeros(2 * best.len)
  {
    hide Words;
    forall k: nat | 2 * best.base <= k < 2 * (best.base + best.len) ensures a[k] == 0 {
      RunByteIsZero(a, best, k);
    }
    ZeroBytes(a, 2 * best.base, 2 * (best.base + best.len));
  }

  lemma Spliced(a: seq<Byte>, b: nat, e: nat)
    requires b < e <= |a|
    ensures var r := a[..b] + a[e..]; r[..b] + a[b..e] + r[b..] == a && |r| == |a| - (e - b)
  {
  }

  /** The zeros are where they were. */
  lemma FinishRestores(a: Address6, best: Run, st: Scan6)
    requires IsAbbreviable(Words(a), best) && st.seen == 0 && st.bytes == Printed(a, best, 8)
    requires st.colon == if best.base != -1 then Some(2 * best.base) else None
    ensures Finish(st) == Some(a)
  {
    if best.base == -1 {
      assert st.bytes + [] == st.bytes && a[..16] == a;
    } else {
      RunIsZero(a, best);
      FinishSplices(a, st, 2 * best.base, 2 * (best.base + best.len));
    }
  }

  lemma FinishSplices(a: Address6, st: Scan6, b: nat, e: nat)
    requires b < e <= 16 && st.seen == 0 && st.colon == Some(b) && st.bytes == a[..b] + a[e..16]
    requires a[b..e] == Zeros(e - b)
    ensures Finish(st) == Some(a)
  {
    assert st.bytes + [] == st.bytes && a[e..16] == a[e..];
    Spliced(a, b, e);
  }

  lemma FinishStoresWord(st: Scan6)
    requires st.seen > 0 && |st.bytes| + 2 <= 16
    requires st.colon.Some? ==> st.colon.value <= |st.bytes|
    ensures Finish(st) == Finish(st.(bytes := st.bytes + WordBytes(st.val), seen := 0))
  {
    var bytes := st.bytes + WordBytes(st.val);
    assert bytes + [] == bytes;
  }

  /** The words of the run print nothing but a colon. */
  lemma {:induction false} InsideSkips(a: Address6, best: Run, i: nat)
    requires IsAbbreviable(Words(a), best) && best.base != -1 && best.base < i <= best.base + best.len
    ensures Format(a, best, i) == Format(a, best, best.base + best.len)
    decreases 8 - i
  {
    if i < best.base + best.len {
      InsideSkips(a, best, i + 1);
    }
  }

  lemma RunPrints(a: Address6, best: Run)
    requires IsAbbreviable(Words(a), best) && best.base != -1
    ensures var end := best.base + best.len;
            Format(a, best, best.base) == ":" + Format(a, best, end) && Format(a, best, end) != "" &&
              Format(a, best, end)[0] == ':'
  {
    InsideSkips(a, best, best.base + 1);
  }

  /** Digits before a dot. */
  lemma ReadsDecimal(st: Scan6, b: Byte, rest: string) returns (end: Scan6)
    requires st.seen == 0
    ensures Run6(st, Decimal(b) + rest) == Run6(end, rest) && end == st.(val := end.val, seen := end.seen)
  {
    hide Run6, Digit;
    if b < 10 {
      ReadsHexDigit(st, b, rest);
      end := st.(val := st.val * 16 + b, seen := 1);
    } else if b < 100 {
      assert Decimal(b) + rest == [Digit(b / 10)] + ([Digit(b % 10)] + rest);
      ReadsHexDigit(st, b / 10, [Digit(b % 10)] + rest);
      var s1 := st.(val := st.val * 16 + b / 10, seen := 1);
      ReadsHexDigit(s1, b % 10, rest);
      end := s1.(val := s1.val * 16 + b % 10, seen := 2);
    } else {
      var tail := [Digit(b % 10)] + rest;
      assert Decimal(b) + rest == [Digit(b / 100)] + ([Digit(b / 10 % 10)] + tail);
      ReadsHexDigit(st, b / 100, [Digit(b / 10 % 10)] + tail);
      var s1 := st.(val := st.val * 16 + b / 100, seen := 1);
      ReadsHexDigit(s1, b / 10 % 10, tail);
      var s2 := s1.(val := s1.val * 16 + b / 10 % 10, seen := 2);
      ReadsHexDigit(s2, b % 10, rest);
      end := s2.(val := s2.val * 16 + b % 10, seen := 3);
    }
  }

  lemma ReadsDot(st: Scan6, rest: string, v4: Address4)
    requires |st.bytes| + 4 <= 16 && st.token == Text4(v4)
    ensures Run6(st, "." + rest) == Some(st.(bytes := st.bytes + v4, seen := 0))
  {
    Parses(v4);
    hide Parse4;
  }

  /** Reading an encapsulated IPv4 address, which ends the text. */
  lemma ReadsEncapsulated(a: Address6, best: Run, st: Scan6)
    requires IsAbbreviable(Words(a), best) && !Inside(best, 6) && Encapsulates(Words(a), best, 6)
    requires ReadyFor(a, best, 6, st) && st.token == Text4(a[12..16])
    ensures Continue(st, Text4(a[12..16])) == Some(a)
  {
    var v4 := a[12..16];
    var rest := Decimal(v4[1]) + "." + Decimal(v4[2]) + "." + Decimal(v4[3]);
    EncapsulatedBytes(a, best);
    Text4Splits(v4);
    hide Run6, Finish, Decimal, Printed, Words, Text4, IsZeroRun, Encapsulates;
    var end := ReadsDecimal(st, v4[0], "." + rest);
    ReadsDot(end, rest, v4);
    FinishRestores(a, best, end.(bytes := end.bytes + v4, seen := 0));
  }

  lemma Text4Splits(a: Address4)
    ensures Text4(a) == Decimal(a[0]) + ("." + (Decimal(a[1]) + "." + Decimal(a[2]) + "." + Decimal(a[3])))
  {
  }

  lemma EncapsulatedBytes(a: Address6, best: Run)
    requires IsAbbreviable(Words(a), best) && !Inside(best, 6) && Encapsulates(Words(a), best, 6)
    ensures |Printed(a, best, 6)| <= 2 && Printed(a, best, 6) + a[12..16] == Printed(a, best, 8) && best.base == 0 &&
            best.base < 6
  {
  }

  /** Reading the text from word i on, whose colon was read. */
  lemma ReadsWords(a: Address6, best: Run, i: nat, st: Scan6)
    requires i < 8 && IsAbbreviable(Words(a), best) && !Inside(best, i) && !Encapsulates(Words(a), best, i)
    requires ReadyFor(a, best, i, st)
    ensures Continue(st, Hex(Words(a)[i]) + Format(a, best, i + 1)) == Some(a)
    decreases 8 - i, 0
  {
    var w := Words(a)[i];
    ReadsHex(st, w, Format(a, best, i + 1));
    PrintedGrows(a, best, i);
    var pending := st.(val := w, seen := |Hex(w)|);
    var stored := Scan6(st.bytes + WordBytes(w), st.colon, "", 0, 0);
    hide Run6, Finish, Hex, WordBytes, Words, Printed, Parse4;
    if i + 1 == 8 {
      EndsPlainly(a, best, pending);
    } else if i + 1 == best.base {
      RunPrints(a, best);
      var rest := Format(a, best, best.base + best.len);
      ReadsColon(pending, rest);
      ReadsRun(a, best, stored.(token := rest));
    } else {
      AfterColon(a, best, i + 1);
      var rest := TextOfWord(a, best, i + 1);
      ReadsColon(pending, rest);
      ReadsWordOrAddress(a, best, i + 1, stored.(token := rest));
    }
  }

  /** The text of word i and what follows, without the colon before it. */
  ghost function TextOfWord(a: Address6, best: Run, i: nat): (s: string)
    requires i < 8
    ensures s != ""
  {
    if Encapsulates(Words(a), best, i) then Text4(a[12..16]) + (if best.base + best.len == 8 then ":" else "")
    else Hex(Words(a)[i]) + Format(a, best, i + 1)
  }

  lemma AfterColon(a: Address6, best: Run, i: nat)
    requires 0 < i < 8 && !Inside(best, i)
    ensures Format(a, best, i) == ":" + TextOfWord(a, best, i)
  {
  }

  lemma EndsPlainly(a: Address6, best: Run, pending: Scan6)
    requires IsAbbreviable(Words(a), best) && !Inside(best, 7) && pending.seen > 0 && |pending.bytes| <= 14
    requires pending.bytes + WordBytes(pending.val) == Printed(a, best, 8)
    requires pending.colon == if best.base != -1 then Some(2 * best.base) else None
    ensures Continue(pending, Format(a, best, 8)) == Some(a)
  {
    FinishStoresWord(pending);
    FinishRestores(a, best, pending.(bytes := pending.bytes + WordBytes(pending.val), seen := 0));
    hide Finish, WordBytes, Printed;
  }

  lemma ReadsWordOrAddress(a: Address6, best: Run, i: nat, st: Scan6)
    requires i < 8 && IsAbbreviable(Words(a), best) && !Inside(best, i)
    requires ReadyFor(a, best, i, st) && st.token == TextOfWord(a, best, i)
    ensures Continue(st, TextOfWord(a, best, i)) == Some(a)
    decreases 8 - i, 1
  {
    if Encapsulates(Words(a), best, i) {
      assert TextOfWord(a, best, i) == Text4(a[12..16]);
      ReadsEncapsulated(a, best, st);
    } else {
      ReadsWords(a, best, i, st);
    }
  }

  /** Reading what follows the run, whose first colon was read. */
  lemma ReadsRun(a: Address6, best: Run, st: Scan6)
    requires IsAbbreviable(Words(a), best) && best.base != -1
    requires st.seen == 0 && st.val == 0 && st.bytes == a[..2 * best.base] && st.colon == None
    ensures Continue(st, Format(a, best, best.base + best.len)) == Some(a)
    decreases 8 - (best.base + best.len), 2
  {
    hide Run6, Finish, Words, IsZeroRun;
    AfterRun(a, best);
    var base: nat, end: nat := best.base, best.base + best.len;
    var next := st.(colon := Some(2 * base));
    if end == 8 {
      ReadsColon(st, "");
      EmptyRun(next.(token := ""));
      FinishRestores(a, best, next.(token := ""));
    } else {
      AfterColon(a, best, end);
      var rest := TextOfWord(a, best, end);
      ReadsColon(st, rest);
      ReadsWordOrAddress(a, best, end, next.(token := rest));
    }
  }

  lemma EmptyRun(st: Scan6)
    ensures Run6(st, "") == Some(st)
  {
  }

  lemma AfterRun(a: Address6, best: Run)
    requires IsAbbreviable(Words(a), best) && best.base != -1
    ensures 0 <= best.base < best.base + best.len <= 8 && !Inside(best, best.base + best.len)
    ensures Printed(a, best, best.base + best.len) == a[..2 * best.base]
    ensures best.base + best.len == 8 ==> Format(a, best, 8) == ":" + ""
  {
  }

  /** The colon of a :: at the start is skipped. */
  lemma ParsesFrom(s: string, src: string)
    requires if s != "" && s[0] == ':' then src != "" && src[0] == ':' && s == ":" + src else s == src
    ensures Parse6(s) == Continue(Scan6([], None, src, 0, 0), src)
  {
    hide Run6, Finish;
    if s != "" && s[0] == ':' {
      assert s[1..] == src && s[1] == src[0];
    }
  }

  /** The parser gives back what was printed, whichever run of zeros is abbreviated. */
  lemma {:induction false} Parses6(a: Address6, best: Run)
    requires IsAbbreviable(Words(a), best)
    ensures Parse6(Format(a, best, 0)) == Some(a)
  {
    hide Run6, Finish, Words, IsZeroRun, Format, Parse6, Continue;
    var s := Format(a, best, 0);
    if best.base == 0 {
      AfterRun(a, best);
      RunPrints(a, best);
      var src := Format(a, best, best.len);
      ParsesFrom(s, src);
      ReadsRun(a, best, Scan6([], None, src, 0, 0));
    } else {
      StartsWithDigit(a, best);
      ParsesFrom(s, s);
      ReadsWords(a, best, 0, Scan6([], None, s, 0, 0));
    }
  }

  lemma {:induction false} StartsWithDigit(a: Address6, best: Run)
    requires IsAbbreviable(Words(a), best) && best.base != 0
    ensures Printed(a, best, 0) == [] && !Inside(best, 0) && (best.base == -1 || best.base > 0)
    ensures var s := Format(a, best, 0); s == Hex(Words(a)[0]) + Format(a, best, 1) && s[0] != ':'
  {
  }
}
