/** Printing and parsing internet addresses, in fixed buffers. */
module Inet {
  import opened FixedWidth
  import opened Options
  import opened AddressTexts
  import opened AddressTexts6
  import opened AddressForms
  import opened PrintedForms

  datatype Status = Success | NoSpace | Invalid

  const INET6_ADDRSTRLEN: nat := 46

  /** Copies a text into a buffer, and ends it there; it is cut if it does not fit. */
  method StrCopy(dst: array<char>, s: string) returns (cut: bool)
    modifies dst
    ensures cut <==> |s| >= dst.Length > 0
    ensures |s| < dst.Length ==> dst[..|s| + 1] == s + ['\0']
    ensures cut ==> dst[..] == s[..dst.Length - 1] + ['\0']
  {
    var i := 0;
    while i < dst.Length
      invariant i <= |s| && i <= dst.Length && dst[..i] == s[..i]
    {
      if i == |s| {
        dst[i] := '\0';
        assert dst[..i + 1] == s + ['\0'];
        return false;
      }
      dst[i] := s[i];
      i := i + 1;
    }
    if i == 0 {
      return false;
    }
    i := i - 1;
    dst[i] := '\0';
    return true;
  }

  method Ntop4(src: Address4, dst: array<char>) returns (status: Status)
    modifies dst
    ensures status == if |Text4(src)| < dst.Length then Success else NoSpace
    ensures status == Success ==> dst[..|Text4(src)| + 1] == Text4(src) + ['\0']
    ensures status == NoSpace ==> dst[..] == old(dst[..])
  {
    var tmp := Text4(src);
    if |tmp| >= dst.Length {
      return NoSpace;
    }
    var _ := StrCopy(dst, tmp);
    return Success;
  }

  method GatherWords(src: Address6) returns (words: array<nat>)
    ensures fresh(words) && words[..] == Words(src)
  {
    words := new nat[8](_ => 0);
    var i: nat := 0;
    while i < 16
      invariant i <= 16
      invariant forall k: nat :: k < i / 2 ==> words[k] == Word(src[2 * k], src[2 * k + 1])
      invariant i % 2 == 1 ==> words[i / 2] == Word(src[i - 1], 0)
      invariant forall k: nat :: (i + 1) / 2 <= k < 8 ==> words[k] == 0
    {
      var byte: nat := src[i];
      words[i / 2] := words[i / 2] + byte * (if i % 2 == 0 then 256 else 1);
      i := i + 1;
    }
  }

  /** The longest of the runs that end before position i, but for the one that still goes on. */
  ghost predicate IsBestBefore(words: seq<nat>, best: Run, cur: Run, i: nat) {
    && (best.base != -1 ==> 1 <= best.len && IsZeroRun(words, best.base, best.len) && best.base + best.len <= i)
    && (cur.base != -1 ==> 1 <= cur.len && IsZeroRun(words, cur.base, cur.len) && cur.base + cur.len == i)
    && (cur.base > 0 ==> words[cur.base - 1] != 0)
    && (cur.base == -1 && 0 < i <= |words| ==> words[i - 1] != 0)
    && (best.base != -1 && cur.base != -1 ==> best.base < cur.base)
    && forall b, l :: IsZeroRun(words, b, l) && 1 <= l && b + l <= i && (cur.base == -1 || b < cur.base) ==>
      Beats(best, b, l)
  }

  ghost predicate Beats(best: Run, b: int, l: int) {
    best.base != -1 && (l < best.len || (l == best.len && best.base <= b))
  }

  method FindBest(words: array<nat>) returns (best: Run)
    requires words.Length == 8
    ensures IsBest(words[..], best)
  {
    best := Run(-1, 0);
    var cur := Run(-1, 0);
    var i := 0;
    ghost var w := words[..];
    while i < words.Length
      invariant i <= 8 && IsBestBefore(w, best, cur, i)
    {
      if words[i] == 0 {
        if cur.base == -1 {
          cur := Run(i, 1);
        } else {
          cur := Run(cur.base, cur.len + 1);
        }
      } else if cur.base != -1 {
        CurrentEnds(w, best, cur, i);
        if best.base == -1 || cur.len > best.len {
          best := cur;
        }
        cur := Run(-1, cur.len);
      }
      i := i + 1;
    }
    if cur.base != -1 {
      CurrentEnds(w, best, cur, i);
      if best.base == -1 || cur.len > best.len {
        best := cur;
      }
    }
    if best.base != -1 && best.len < 2 {
      best := Run(-1, best.len);
    }
  }

  /** The better of the best run and the one that ends is the best of all. */
  lemma CurrentEnds(words: seq<nat>, best: Run, cur: Run, i: nat)
    requires IsBestBefore(words, best, cur, i) && cur.base != -1
    ensures var better := if best.base == -1 || cur.len > best.len then cur else best;
            forall b, l :: IsZeroRun(words, b, l) && 1 <= l && b + l <= i ==> Beats(better, b, l)
  {
  }

  /** The text is never longer than the buffer it is put together in, with its end. */
  lemma {:induction false} FormatFits(a: Address6, best: Run, i: nat)
    requires i <= 8 && IsAbbreviable(Words(a), best)
    ensures |Format(a, best, i)|
         <= if best.base == 0 && best.len >= 5 then (if i == 0 then 23 else 22) else 5 * (8 - i) + 1
    ensures i > 0 && best.base == 0 && best.len >= 5 && best.len <= 6 && i > 5 ==> |Format(a, best, i)| <= 17
    decreases 8 - i
  {
    hide Hex, Text4, Words;
    if i < 8 {
      FormatFits(a, best, i + 1);
    }
  }

  /** Puts a text into the buffer. */
  method Append(tmp: array<char>, tp: nat, s: string) returns (end: nat)
    requires tp + |s| <= tmp.Length
    modifies tmp
    ensures end == tp + |s| && tmp[..end] == old(tmp[..tp]) + s
  {
    var k := 0;
    while k < |s|
      invariant k <= |s| && tmp[..tp + k] == old(tmp[..tp]) + s[..k]
    {
      tmp[tp + k] := s[k];
      k := k + 1;
    }
    end := tp + |s|;
  }

  lemma BestIsAbbreviable(words: seq<nat>, best: Run)
    requires IsBest(words, best)
    ensures IsAbbreviable(words, best)
  {
  }

  /** The text of an address: the first longest run of zeros is abbreviated, and the text fits the buffer of 46
      characters. */
  method Ntop6(src: Address6, dst: array<char>) returns (status: Status, ghost best: Run, ghost text: string)
    modifies dst
    ensures IsBest(Words(src), best) && text == Format(src, best, 0) && |text| < INET6_ADDRSTRLEN
    ensures IsAbbreviable(Words(src), best) && text == FormText(PrintedForm(src, best))
    ensures Parse6(text) == Some(src)
    ensures status == if |text| < dst.Length || dst.Length == 0 then Success else NoSpace
    ensures status == Success && dst.Length > 0 ==> dst[..|text| + 1] == text + ['\0']
  {
    var words := GatherWords(src);
    var run := FindBest(words);
    hide Words, IsZeroRun, Format, Parse6, FormText, PrintedForm, IsAbbreviable;
    best, text := run, Format(src, run, 0);
    BestIsAbbreviable(Words(src), run);
    Parses6(src, run);
    FormatIsForm(src, run);
    var tmp := new char[46];
    var tp := WriteText(src, words, run, tmp);
    tmp[tp] := '\0';
    assert tmp[..tp] == text;
    var cut := StrCopy(dst, tmp[..tp]);
    status := if cut then NoSpace else Success;
  }

  /** Writes word i, or the IPv4 address that ends the text. */
  method WriteWord(src: Address6, words: array<nat>, best: Run, tmp: array<char>, tp0: nat, i: nat, ghost text: string)
      returns (tp: nat, ended: bool)
    requires words[..] == Words(src) && i < 8 && !Inside(best, i) && |text| < tmp.Length && tp0 <= tmp.Length
    requires tmp[..tp0] + Format(src, best, i) == text
    modifies tmp
    ensures tp <= tmp.Length && ended == Encapsulates(Words(src), best, i)
    ensures tmp[..tp] + (if ended then Ending(best) else Format(src, best, i + 1)) == text
  {
    hide Words, Hex, Text4, Word;
    ghost var before := tmp[..tp0];
    ghost var colon := if i != 0 then ":" else "";
    var last := words[7];
    ended := i == 6 && best.base == 0 && (best.len == 6 || (best.len == 7 && last != 0x0001) ||
                                          (best.len == 5 && words[5] == 0xffff));
    var piece := if ended then Text4(src[12..16]) else Hex(words[i]);
    ghost var tail := if ended then Ending(best) else Format(src, best, i + 1);
    FormatOfWord(src, best, i, before, colon, piece, tail);
    hide Format;
    tp := tp0;
    if i != 0 {
      tp := Append(tmp, tp, ":");
    }
    assert tmp[..tp] == before + colon;
    tp := Append(tmp, tp, piece);
  }

  /** What is printed after a run of zeros at the end. */
  function Ending(best: Run): string {
    if best.base != -1 && best.base + best.len == 8 then ":" else ""
  }

  lemma {:induction false} FormatOfWord(a: Address6, best: Run, i: nat, before: string, colon: string, piece: string,
                                        tail: string)
    requires i < 8 && !Inside(best, i) && colon == if i != 0 then ":" else ""
    requires if Encapsulates(Words(a), best, i) then piece == Text4(a[12..16]) && tail == Ending(best)
             else piece == Hex(Words(a)[i]) && tail == Format(a, best, i + 1)
    ensures before + Format(a, best, i) == before + colon + piece + tail
  {
    WordStarts(a, best, i, colon, piece, tail);
    Associates(before, colon, piece, tail);
    hide Format, Inside, Encapsulates, Ending, Words, Hex, Text4;
  }

  lemma {:induction false} WordStarts(a: Address6, best: Run, i: nat, colon: string, piece: string, tail: string)
    requires i < 8 && !Inside(best, i) && colon == if i != 0 then ":" else ""
    requires if Encapsulates(Words(a), best, i) then piece == Text4(a[12..16]) && tail == Ending(best)
             else piece == Hex(Words(a)[i]) && tail == Format(a, best, i + 1)
    ensures Format(a, best, i) == colon + (piece + tail)
  {
    hide Words, Hex, Text4;
    if i == 0 {
      assert "" + (piece + tail) == piece + tail;
    }
  }

  lemma Associates(a: string, b: string, c: string, d: string)
    ensures a + (b + (c + d)) == a + b + c + d
  {
  }

  lemma FormatEnds(a: Address6, best: Run)
    ensures Format(a, best, 8) == Ending(best)
    ensures Ending(best) == if best.base != -1 && best.base + best.len == 8 then ":" else ""
  {
  }

  lemma FormatInside(a: Address6, best: Run, i: nat)
    requires i < 8 && Inside(best, i)
    ensures Format(a, best, i) == if i == best.base then ":" + Format(a, best, i + 1) else Format(a, best, i + 1)
  {
    assert "" + Format(a, best, i + 1) == Format(a, best, i + 1);
  }

  /** Writes what the run prints at word i: a colon where it begins. */
  method WriteInside(src: Address6, best: Run, tmp: array<char>, tp0: nat, i: nat, ghost text: string) returns (tp: nat)
    requires i < 8 && Inside(best, i) && |text| < tmp.Length && tp0 <= tmp.Length &&
             tmp[..tp0] + Format(src, best, i) == text
    modifies tmp
    ensures tp <= tmp.Length && tmp[..tp] + Format(src, best, i + 1) == text
  {
    FormatInside(src, best, i);
    hide Format;
    tp := tp0;
    if i == best.base {
      assert tmp[..tp] + Format(src, best, i) == tmp[..tp] + ":" + Format(src, best, i + 1);
      tp := Append(tmp, tp, ":");
    }
  }

  method WriteText(src: Address6, words: array<nat>, best: Run, tmp: array<char>) returns (tp: nat)
    requires words[..] == Words(src) && IsBest(Words(src), best) && tmp.Length == INET6_ADDRSTRLEN
    modifies tmp
    ensures tp < tmp.Length && tmp[..tp] == Format(src, best, 0)
  {
    FormatFits(src, best, 0);
    FormatEnds(src, best);
    hide Words, IsBest, Encapsulates, Format, Ending;
    tp := 0;
    var i: nat := 0;
    ghost var text := Format(src, best, 0);
    assert tmp[..0] + text == text;
    var ended := false;
    while i < 8 && !ended
      invariant i <= 8 && tp <= tmp.Length
      invariant tmp[..tp] + (if ended then Ending(best) else Format(src, best, i)) == text
      decreases 8 - i, !ended
    {
      if best.base != -1 && i >= best.base && i < best.base + best.len {
        tp := WriteInside(src, best, tmp, tp, i, text);
        i := i + 1;
      } else {
        tp, ended := WriteWord(src, words, best, tmp, tp, i, text);
        if !ended {
          i := i + 1;
        }
      }
    }
    if best.base != -1 && best.base + best.len == 8 {
      tp := Append(tmp, tp, ":");
    }
  }

  /** The address of a dotted text, stored from `at` on; nothing is stored if the text is no address. */
  method Pton4(src: string, dst: array<Byte>, at: nat) returns (status: Status)
    requires at + 4 <= dst.Length
    modifies dst
    ensures status == if Parse4(src).Some? then Success else Invalid
    ensures dst[..] == if Parse4(src).Some? then old(dst[..at]) + Parse4(src).value + old(dst[at + 4..])
            else old(dst[..])
  {
    hide Run4;
    var tmp := new Byte[4];
    var sawDigit, octets, tp, p := false, 0, 0, 0;
    tmp[tp] := 0;
    assert src[0..] == src && tmp[..1] == [0];
    while p < |src|
      invariant p <= |src| && tp < 4 && octets == (if sawDigit then tp + 1 else tp)
      invariant !sawDigit ==> tmp[tp] == 0
      invariant Run4(Scan4([0], false), src) == Run4(Scan4(tmp[..tp + 1], sawDigit), src[p..])
      invariant dst[..] == old(dst[..])
    {
      var ch := src[p];
      ghost var st := Scan4(tmp[..tp + 1], sawDigit);
      RunSteps(st, src[p..]);
      p := p + 1;
      if '0' <= ch <= '9' {
        var nw := tmp[tp] as nat * 10 + (ch as nat - '0' as nat);
        if sawDigit && tmp[tp] == 0 {
          return Invalid;
        }
        if nw > 255 {
          return Invalid;
        }
        tmp[tp] := nw;
        assert tmp[..tp + 1] == st.octets[tp := nw];
        if !sawDigit {
          octets := octets + 1;
          if octets > 4 {
            return Invalid;
          }
          sawDigit := true;
        }
      } else if ch == '.' && sawDigit {
        if octets == 4 {
          return Invalid;
        }
        tp := tp + 1;
        tmp[tp] := 0;
        assert tmp[..tp + 1] == st.octets + [0];
        sawDigit := false;
      } else {
        return Invalid;
      }
    }
    RunEnds(Scan4(tmp[..tp + 1], sawDigit));
    assert src[p..] == "";
    if octets < 4 {
      return Invalid;
    }
    assert tmp[..tp + 1] == tmp[..];
    Store(dst, at, tmp);
    return Success;
  }

  lemma RunSteps(st: Scan4, s: string)
    requires st.octets != [] && s != ""
    ensures Run4(st, s) == match Step4(st, s[0]) case None => None case Some(next) => Run4(next, s[1..])
  {
  }

  lemma RunEnds(st: Scan4)
    requires st.octets != []
    ensures Run4(st, "") == Some(st)
  {
  }

  method Store(dst: array<Byte>, at: nat, bytes: array<Byte>)
    requires at + bytes.Length <= dst.Length && bytes != dst
    modifies dst
    ensures dst[..] == old(dst[..at]) + bytes[..] + old(dst[at + bytes.Length..])
  {
    forall k | 0 <= k < bytes.Length {
      dst[at + k] := bytes[k];
    }
  }

  /** The bytes from m on at the end of n bytes, and zeros between them and those before. */
  ghost function Moved(was: seq<Byte>, n: nat, m: nat): (s: seq<Byte>)
    requires m <= |was| <= n
    ensures |s| == n
  {
    was[..m] + Zeros(n - |was|) + was[m..]
  }

  lemma MovesOne(was: seq<Byte>, n: nat, m: nat)
    requires 0 < m <= |was| < n
    ensures var s, gap := Moved(was, n, m), n - |was|;
            s[m - 1] == was[m - 1] && s[m - 1 + gap := s[m - 1]][m - 1 := 0] == Moved(was, n, m - 1)
  {
    var gap := n - |was|;
    var s, t := Moved(was, n, m), Moved(was, n, m - 1);
    forall k: nat | k < n ensures t[k] == if k == m - 1 then 0 else if k == m - 1 + gap then was[m - 1] else s[k] {
    }
  }

  /** Moves the bytes from c to tp to the end of the buffer, one by one from the last, leaving zeros behind. */
  method ShiftToEnd(tmp: array<Byte>, c: nat, tp: nat)
    requires tmp.Length == 16 && c <= tp < 16 && forall k :: tp <= k < 16 ==> tmp[k] == 0
    modifies tmp
    ensures tmp[..] == Moved(old(tmp[..tp]), 16, c)
  {
    ghost var was := tmp[..tp];
    MovesNone(tmp[..], tp);
    hide Moved;
    var n := tp - c;
    var i := 1;
    while i <= n
      invariant 1 <= i <= n + 1 && tmp[..] == Moved(was, 16, tp - i + 1)
    {
      MovesOne(was, 16, tp - i + 1);
      ghost var s := tmp[..];
      tmp[16 - i] := tmp[c + n - i];
      tmp[c + n - i] := 0;
      assert tmp[..] == s[16 - i := s[tp - i]][tp - i := 0];
      i := i + 1;
    }
  }

  lemma MovesNone(s: seq<Byte>, tp: nat)
    requires tp <= |s| && forall k :: tp <= k < |s| ==> s[k] == 0
    ensures s == Moved(s[..tp], |s|, tp)
  {
  }

  /** The parser's variables, as a state of its specification. */
  ghost function StateOf(src: string, tmp: seq<Byte>, tp: nat, colon: Option<nat>, curtok: nat, seen: nat,
                         val: nat): Scan6
    requires tp <= |tmp| && curtok <= |src|
  {
    Scan6(tmp[..tp], colon, src[curtok..], seen, val)
  }

  lemma Run6Steps(st: Scan6, src: string, p: nat)
    requires p < |src|
    ensures var ch, rest := src[p], src[p + 1..];
            Run6(st, src[p..]) == match HexValue(ch)
              case Some(d) =>
                if st.seen + 1 > 4 then None else Run6(st.(val := st.val * 16 + d, seen := st.seen + 1), rest)
              case None =>
                if ch == ':' then
                  if st.seen == 0 then
                    if st.colon.Some? then None else Run6(st.(colon := Some(|st.bytes|), token := rest), rest)
                  else if rest == "" || |st.bytes| + 2 > 16 then None
                  else Run6(Scan6(st.bytes + WordBytes(st.val), st.colon, rest, 0, 0), rest)
                else if ch == '.' && |st.bytes| + 4 <= 16 then
                  match Parse4(st.token)
                  case Some(v4) => Some(st.(bytes := st.bytes + v4, seen := 0))
                  case None => None
                else None
  {
    assert src[p..][1..] == src[p + 1..];
  }

  /** The scanning loop, from the character after a leading colon on. */
  method Scan(src: string, tmp: array<Byte>) returns (ok: bool, tp: nat, colon: Option<nat>, seen: nat, val: nat)
    requires tmp.Length == 16 && forall k :: 0 <= k < 16 ==> tmp[k] == 0
    modifies tmp
    ensures ok <==> Run6(Scan6([], None, src, 0, 0), src).Some?
    ensures ok ==> tp <= 16 && (forall k :: tp <= k < 16 ==> tmp[k] == 0) && (colon.Some? ==> colon.value <= tp)
    ensures ok ==> var end := Run6(Scan6([], None, src, 0, 0), src).value;
                   end == Scan6(tmp[..tp], colon, end.token, seen, val)
  {
    hide Run6, Parse4, WordBytes;
    ghost var start := Scan6([], None, src, 0, 0);
    var curtok: nat, p: nat := 0, 0;
    tp, colon, seen, val := 0, None, 0, 0;
    assert src[0..] == src;
    while p < |src|
      invariant p <= |src| && curtok <= |src| && tp <= 16 && (forall k :: tp <= k < 16 ==> tmp[k] == 0)
      invariant colon.Some? ==> colon.value <= tp
      invariant Run6(start, src) == Run6(StateOf(src, tmp[..], tp, colon, curtok, seen, val), src[p..])
    {
      var ch := src[p];
      ghost var st := StateOf(src, tmp[..], tp, colon, curtok, seen, val);
      Run6Steps(st, src, p);
      p := p + 1;
      var digit := HexValue(ch);
      if digit.Some? {
        val := val * 16 + digit.value;
        seen := seen + 1;
        if seen > 4 {
          ok := false;
          return;
        }
      } else if ch == ':' {
        curtok := p;
        if seen == 0 {
          if colon.Some? {
            ok := false;
            return;
          }
          colon := Some(tp);
        } else {
          if p == |src| || tp + 2 > 16 {
            ok := false;
            return;
          }
          StoreWord(tmp, tp, val);
          tp := tp + 2;
          seen, val := 0, 0;
        }
      } else {
        if ch == '.' && tp + 4 <= 16 {
          var status := Pton4(src[curtok..], tmp, tp);
          if status == Success {
            assert tmp[..tp + 4] == st.bytes + Parse4(st.token).value;
            tp := tp + 4;
            seen := 0;
            ok := true;
            return;
          }
        }
        ok := false;
        return;
      }
    }
    assert src[p..] == "";
    Run6Ends(StateOf(src, tmp[..], tp, colon, curtok, seen, val));
    ok := true;
  }

  lemma Run6Ends(st: Scan6)
    ensures Run6(st, "") == Some(st)
  {
  }

  method StoreWord(tmp: array<Byte>, tp: nat, val: nat)
    requires tp + 2 <= tmp.Length
    modifies tmp
    ensures tmp[..tp + 2] == old(tmp[..tp]) + WordBytes(val) && tmp[tp + 2..] == old(tmp[tp + 2..])
  {
    tmp[tp] := val / 256 % 256;
    tmp[tp + 1] := val % 256;
  }

  /** Stores the last word, and moves what followed the :: to the end. */
  method Complete(tmp: array<Byte>, tp0: nat, colon: Option<nat>, seen: nat, val: nat, ghost token: string)
    returns (ok: bool)
    requires tmp.Length == 16 && tp0 <= 16 && (forall k :: tp0 <= k < 16 ==> tmp[k] == 0)
    requires colon.Some? ==> colon.value <= tp0
    modifies tmp
    ensures var end := Finish(Scan6(old(tmp[..tp0]), colon, token, seen, val));
            ok == end.Some? && (ok ==> tmp[..] == end.value)
  {
    var tp := tp0;
    if seen > 0 {
      if tp + 2 > 16 {
        return false;
      }
      StoreWord(tmp, tp, val);
      tp := tp + 2;
    }
    if colon.Some? {
      if tp == 16 {
        return false;
      }
      ShiftToEnd(tmp, colon.value, tp);
      tp := 16;
    }
    assert tmp[..16] == tmp[..];
    return tp == 16;
  }

  /** The address of a text, stored only if the text is one. */
  method Pton6(src: string, dst: array<Byte>) returns (status: Status)
    requires dst.Length == 16
    modifies dst
    ensures status == if Parse6(src).Some? then Success else Invalid
    ensures dst[..] == if Parse6(src).Some? then Parse6(src).value else old(dst[..])
  {
    hide Run6, Finish;
    var tmp := new Byte[16](_ => 0);
    var from := src;
    if src != "" && src[0] == ':' {
      if !(|src| > 1 && src[1] == ':') {
        return Invalid;
      }
      from := src[1..];
    }
    var ok, tp, colon, seen, val := Scan(from, tmp);
    if !ok {
      return Invalid;
    }
    ok := Complete(tmp, tp, colon, seen, val, Run6(Scan6([], None, from, 0, 0), from).value.token);
    if !ok {
      return Invalid;
    }
    Store(dst, 0, tmp);
    return Success;
  }
}
