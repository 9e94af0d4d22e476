/** Internet addresses as text: dotted decimal, and the forms of section 2.2 of RFC 4291. */
module AddressTexts {
  import opened FixedWidth
  import opened Options

  function Digit(d: nat): (c: char)
    requires d < 16
  {
    if d < 10 then '0' + d as char else 'a' + (d - 10) as char
  }

  /** "%u" of a byte. */
  function Decimal(b: Byte): (s: string)
    ensures 1 <= |s| <= 3
  {
    if b < 10 then [Digit(b)]
    else if b < 100 then [Digit(b / 10), Digit(b % 10)]
    else [Digit(b / 100), Digit(b / 10 % 10), Digit(b % 10)]
  }

  /** "%x" of a 16-bit word. */
  function Hex(w: nat): (s: string)
    requires w < 0x10000
    ensures 1 <= |s| <= 4
  {
    if w < 0x10 then [Digit(w)]
    else if w < 0x100 then [Digit(w / 16), Digit(w % 16)]
    else if w < 0x1000 then [Digit(w / 256), Digit(w / 16 % 16), Digit(w % 16)]
    else [Digit(w / 4096), Digit(w / 256 % 16), Digit(w / 16 % 16), Digit(w % 16)]
  }

  type Address4 = a: seq<Byte> | |a| == 4 witness [0, 0, 0, 0]

  function Text4(a: Address4): (s: string)
    ensures |s| <= 15
  {
    Decimal(a[0]) + "." + Decimal(a[1]) + "." + Decimal(a[2]) + "." + Decimal(a[3])
  }

  function DecimalValue(c: char): Option<nat> {
    if '0' <= c <= '9' then Some(c as nat - '0' as nat) else None
  }

  function HexValue(c: char): Option<nat> {
    if '0' <= c <= '9' then Some(c as nat - '0' as nat)
    else if 'a' <= c <= 'f' then Some(c as nat - 'a' as nat + 10)
    else if 'A' <= c <= 'F' then Some(c as nat - 'A' as nat + 10)
    else None
  }

  /** What the parser has of an IPv4 address: the octets before the current one, which is the last, whether that has a
      digit, and how many octets have one. */
  datatype Scan4 = Scan4(octets: seq<Byte>, sawDigit: bool)
  {
    /** The number of octets begun. */
    function Count(): int {
      if sawDigit then |octets| else |octets| - 1
    }
  }

  /** One character: the next state, or none if the text is refused. */
  function Step4(st: Scan4, ch: char): Option<Scan4>
    requires st.octets != []
  {
    var last := |st.octets| - 1;
    match DecimalValue(ch)
    case Some(d) =>
      var nw := st.octets[last] * 10 + d;
      if st.sawDigit && st.octets[last] == 0 then None
      else if nw > 255 then None
      else if !st.sawDigit && st.Count() + 1 > 4 then None
      else Some(Scan4(st.octets[last := nw], true))
    case None =>
      if ch == '.' && st.sawDigit && st.Count() != 4 then Some(Scan4(st.octets + [0], false)) else None
  }

  function Run4(st: Scan4, s: string): Option<Scan4>
    requires st.octets != []
    decreases |s|
  {
    if s == "" then Some(st)
    else match Step4(st, s[0])
         case None => None
         case Some(next) => Run4(next, s[1..])
  }

  /** The address a text of dotted decimals means, if it is one. */
  function Parse4(s: string): (r: Option<Address4>) {
    match Run4(Scan4([0], false), s)
    case None => None
    case Some(st) => if |st.octets| == 4 && st.sawDigit then Some(st.octets) else None
  }

  /** Octets, each followed by a dot. */
  ghost function Dotted(octets: seq<Byte>): string {
    if octets == [] then "" else Dotted(octets[..|octets| - 1]) + Decimal(octets[|octets| - 1]) + "."
  }

  /** The text that leads to a state. */
  ghost function Shown(st: Scan4): string
    requires st.octets != []
  {
    var last := |st.octets| - 1;
    Dotted(st.octets[..last]) + if st.sawDigit then Decimal(st.octets[last]) else ""
  }

  ghost predicate IsState4(st: Scan4) {
    1 <= |st.octets| <= 4 && (!st.sawDigit ==> st.octets[|st.octets| - 1] == 0)
  }

  lemma DecimalGrows(v: Byte, c: char)
    requires DecimalValue(c).Some?
    ensures v > 0 && v * 10 + DecimalValue(c).value < 256 ==>
            Decimal(v * 10 + DecimalValue(c).value) == Decimal(v) + [c]
    ensures Decimal(DecimalValue(c).value) == [c]
  {
  }

  lemma StepShows(st: Scan4, ch: char)
    requires IsState4(st) && Step4(st, ch).Some?
    ensures IsState4(Step4(st, ch).value) && Shown(Step4(st, ch).value) == Shown(st) + [ch]
  {
    hide Decimal, Digit;
    var last := |st.octets| - 1;
    var next := Step4(st, ch).value;
    if DecimalValue(ch).Some? {
      DecimalGrows(st.octets[last], ch);
      assert next.octets[..last] == st.octets[..last];
    } else {
      assert next.octets[..last + 1] == st.octets && st.octets == st.octets[..last] + [st.octets[last]];
    }
  }

  lemma {:induction false} RunShows(st: Scan4, s: string)
    requires IsState4(st) && Run4(st, s).Some?
    ensures IsState4(Run4(st, s).value) && Shown(Run4(st, s).value) == Shown(st) + s
    decreases |s|
  {
    hide Shown, Step4;
    if s != "" {
      StepShows(st, s[0]);
      var next := Step4(st, s[0]).value;
      RunShows(next, s[1..]);
      assert Shown(st) + s == Shown(st) + [s[0]] + s[1..];
    }
  }

  lemma RunAppends(st: Scan4, c: char, rest: string)
    requires st.octets != []
    ensures Run4(st, [c] + rest) == match Step4(st, c) case None => None case Some(next) => Run4(next, rest)
  {
    assert ([c] + rest)[1..] == rest;
  }

  /** Reading one digit of an octet. */
  lemma {:induction false} RunReadsDigit(st: Scan4, v: Byte, d: nat, rest: string)
    requires IsState4(st) && v == st.octets[|st.octets| - 1] && d < 10 && v * 10 + d < 256 && (st.sawDigit ==> v > 0)
    ensures Run4(st, [Digit(d)] + rest) == Run4(Scan4(st.octets[|st.octets| - 1 := v * 10 + d], true), rest)
  {
    RunAppends(st, Digit(d), rest);
  }

  /** Reading the digits of one octet. */
  lemma RunReadsOctet(st: Scan4, b: Byte, rest: string)
    requires IsState4(st) && !st.sawDigit
    ensures Run4(st, Decimal(b) + rest) == Run4(Scan4(st.octets[|st.octets| - 1 := b], true), rest)
  {
    hide Run4, Digit;
    var last := |st.octets| - 1;
    if b < 10 {
      RunReadsDigit(st, 0, b, rest);
    } else if b < 100 {
      var tail := [Digit(b % 10)] + rest;
      assert Decimal(b) + rest == [Digit(b / 10)] + tail;
      RunReadsDigit(st, 0, b / 10, tail);
      RunReadsDigit(Scan4(st.octets[last := b / 10], true), b / 10, b % 10, rest);
    } else {
      var tail := [Digit(b % 10)] + rest;
      var more := [Digit(b / 10 % 10)] + tail;
      assert Decimal(b) + rest == [Digit(b / 100)] + more;
      assert b / 100 * 10 + b / 10 % 10 == b / 10;
      RunReadsDigit(st, 0, b / 100, more);
      RunReadsDigit(Scan4(st.octets[last := b / 100], true), b / 100, b / 10 % 10, tail);
      RunReadsDigit(Scan4(st.octets[last := b / 10], true), b / 10, b % 10, rest);
    }
    Overwritten(st.octets, last, b / 100, b / 10);
    Overwritten(st.octets, last, b / 10, b);
  }

  lemma Overwritten<T>(s: seq<T>, i: nat, x: T, y: T)
    requires i < |s|
    ensures s[i := x][i := y] == s[i := y]
  {
  }

  lemma RunReadsDot(octets: seq<Byte>, rest: string)
    requires 1 <= |octets| < 4
    ensures Run4(Scan4(octets, true), "." + rest) == Run4(Scan4(octets + [0], false), rest)
  {
    RunAppends(Scan4(octets, true), '.', rest);
  }

  /** The parser accepts what is printed, and gives the address back. */
  lemma Parses(a: Address4)
    ensures Parse4(Text4(a)) == Some(a)
  {
    hide Decimal, Digit, Step4;
    var t3 := Decimal(a[3]);
    var t2 := Decimal(a[2]) + ("." + t3);
    var t1 := Decimal(a[1]) + ("." + t2);
    var t0 := Decimal(a[0]) + ("." + t1);
    assert Text4(a) == t0;
    RunReadsOctet(Scan4([0], false), a[0], "." + t1);
    assert [0][0 := a[0]] == [a[0]];
    RunReadsDot([a[0]], t1);
    assert [a[0]] + [0] == [a[0], 0];
    RunReadsOctet(Scan4([a[0], 0], false), a[1], "." + t2);
    assert [a[0], 0][1 := a[1]] == [a[0], a[1]];
    RunReadsDot([a[0], a[1]], t2);
    assert [a[0], a[1]] + [0] == [a[0], a[1], 0];
    RunReadsOctet(Scan4([a[0], a[1], 0], false), a[2], "." + t3);
    assert [a[0], a[1], 0][2 := a[2]] == [a[0], a[1], a[2]];
    RunReadsDot([a[0], a[1], a[2]], t3);
    assert [a[0], a[1], a[2]] + [0] == [a[0], a[1], a[2], 0];
    RunReadsOctet(Scan4([a[0], a[1], a[2], 0], false), a[3], "");
    assert [a[0], a[1], a[2], 0][3 := a[3]] == a && t3 + "" == t3;
    assert Run4(Scan4(a, true), "") == Some(Scan4(a, true));
  }

  lemma SampleText4()
    ensures Text4([129, 144, 52, 38]) == "129.144.52.38" && Text4([13, 1, 68, 3]) == "13.1.68.3"
  {
  }

  /** Text and IPv4 address determine each other: the parser accepts exactly what is printed. */
  lemma {:induction false} ParsesExactly(s: string, a: Address4)
    ensures Parse4(s) == Some(a) <==> s == Text4(a)
  {
    hide Decimal, Digit, Step4;
    Parses(a);
    if Parse4(s) == Some(a) {
      RunShows(Scan4([0], false), s);
      assert Shown(Scan4([0], false)) == "";
      assert a[..3][..2] == a[..2] && a[..2][..1] == a[..1] && a[..1][..0] == [];
      assert Dotted(a[..1]) == Dotted([]) + Decimal(a[0]) + ".";
      assert Dotted(a[..2]) == Dotted(a[..1]) + Decimal(a[1]) + ".";
      assert Dotted(a[..3]) == Dotted(a[..2]) + Decimal(a[2]) + ".";
      assert Shown(Scan4(a, true)) == Text4(a);
    }
  }
}
