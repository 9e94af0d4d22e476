/** UTF-8, as section 3 of RFC 3629 defines it, and the decoder of one code point. */
module Utf8 {
  import opened MachineWords
  import opened FixedWidth

  const INVALID: nat := MAX_32

  /** A code point that is not a surrogate. */
  predicate IsScalar(c: nat) {
    c < 0xD800 || 0xE000 <= c <= 0x10FFFF
  }

  function Encode(c: nat): (s: seq<Byte>)
    requires IsScalar(c)
    ensures s != []
  {
    if c < 0x80 then [c]
    else if c < 0x800 then [0xC0 + c / 64, 0x80 + c % 64]
    else if c < 0x10000 then [0xE0 + c / 4096, 0x80 + c / 64 % 64, 0x80 + c % 64]
    else [0xF0 + c / 262144, 0x80 + c / 4096 % 64, 0x80 + c / 64 % 64, 0x80 + c % 64]
  }

  ghost predicate AreScalars(cps: seq<nat>) {
    forall c :: c in cps ==> IsScalar(c)
  }

  function EncodeAll(cps: seq<nat>): seq<Byte>
    requires AreScalars(cps)
  {
    if cps == [] then [] else Encode(cps[0]) + EncodeAll(cps[1..])
  }

  /** How many bytes the decoder reads for this first byte. */
  function Width(a: Byte): (w: nat)
    ensures 1 <= w <= 4
  {
    if a < 0xC0 || a > 0xF7 then 1 else if a < 0xE0 then 2 else if a < 0xF0 then 3 else 4
  }

  /** The exclusive or of the two upper bits of bytes. */
  function XorTop(b: nat, c: nat): nat {
    (b / 128 + c / 128) % 2 * 2 + (b / 64 + c / 64) % 2
  }

  /** The value of a sequence whose first byte gave a, after the checks of its continuation bytes and of its value. */
  function Checked(a: nat, b: nat, c: nat, d: nat, min: nat): nat {
    var v := a * 262144 + b % 64 * 4096 + c % 64 * 64 + d % 64;
    if XorTop(XorTop(b, c) * 64, d) != 2 then INVALID
    else if v < min || v > 0x10FFFF || 0xD800 <= v <= 0xDFFF then INVALID
    else v
  }

  /** The code point at p, and where the next one starts. */
  function Decode1(s: seq<Byte>, p: nat): (r: (nat, nat))
    requires p < |s| && p + Width(s[p]) <= |s|
    ensures r.1 == p + Width(s[p])
  {
    var a := s[p];
    if a < 128 then (a, p + 1)
    else if a > 0xF7 then (INVALID, p + 1)
    else if a > 0xEF then (Checked(a % 8, s[p + 1], s[p + 2], s[p + 3], 0x10000), p + 4)
    else if a > 0xDF then (Checked(0, 0x80 + a % 16, s[p + 1], s[p + 2], 0x800), p + 3)
    else if a > 0xBF then (Checked(0, 0x80, 0x80 + a % 32, s[p + 1], 0x80), p + 2)
    else (INVALID, p + 1)
  }

  lemma ContinuationsPass(b: nat, c: nat, d: nat)
    requires b / 64 == c / 64 == d / 64 == 2
    ensures XorTop(XorTop(b, c) * 64, d) == 2
  {
  }

  lemma SixBits(c: nat)
    requires c <= 0x10FFFF
    ensures c == c / 262144 * 262144 + c / 4096 % 64 * 4096 + c / 64 % 64 * 64 + c % 64
    ensures c / 262144 <= 4
  {
    assert c / 64 / 64 == c / 4096 && c / 4096 / 64 == c / 262144;
  }

  lemma CheckedIs(a: nat, b: nat, c: nat, d: nat, min: nat, v: nat)
    requires b / 64 == c / 64 == d / 64 == 2 && IsScalar(v) && min <= v
    requires v == a * 262144 + b % 64 * 4096 + c % 64 * 64 + d % 64
    ensures Checked(a, b, c, d, min) == v
  {
    ContinuationsPass(b, c, d);
    hide XorTop;
  }

  lemma Decodes2(s: seq<Byte>, p: nat, c: nat)
    requires 0x80 <= c < 0x800 && p + 2 <= |s| && s[p] == 0xC0 + c / 64 && s[p + 1] == 0x80 + c % 64
    ensures Width(s[p]) == 2 && Decode1(s, p) == (c, p + 2)
  {
    hide Checked;
    CheckedIs(0, 0x80, 0x80 + s[p] % 32, s[p + 1], 0x80, c);
  }

  lemma Decodes3(s: seq<Byte>, p: nat, c: nat)
    requires IsScalar(c) && 0x800 <= c < 0x10000 && p + 3 <= |s|
    requires s[p] == 0xE0 + c / 4096 && s[p + 1] == 0x80 + c / 64 % 64 && s[p + 2] == 0x80 + c % 64
    ensures Width(s[p]) == 3 && Decode1(s, p) == (c, p + 3)
  {
    hide Checked;
    SixBits(c);
    CheckedIs(0, 0x80 + s[p] % 16, s[p + 1], s[p + 2], 0x800, c);
  }

  lemma Decodes4(s: seq<Byte>, p: nat, c: nat)
    requires IsScalar(c) && 0x10000 <= c && p + 4 <= |s| && s[p] == 0xF0 + c / 262144
    requires s[p + 1] == 0x80 + c / 4096 % 64 && s[p + 2] == 0x80 + c / 64 % 64 && s[p + 3] == 0x80 + c % 64
    ensures Width(s[p]) == 4 && Decode1(s, p) == (c, p + 4)
  {
    hide Checked;
    SixBits(c);
    CheckedIs(s[p] % 8, s[p + 1], s[p + 2], s[p + 3], 0x10000, c);
  }

  /** The decoder inverts the encoding of every code point. */
  lemma {:induction false} DecodesEncoded(s: seq<Byte>, p: nat, c: nat)
    requires IsScalar(c) && p + |Encode(c)| <= |s| && s[p..p + |Encode(c)|] == Encode(c)
    ensures p + Width(s[p]) <= |s| && Decode1(s, p) == (c, p + |Encode(c)|)
  {
    hide Checked, Decode1;
    var e := Encode(c);
    assert s[p] == s[p..p + |e|][0];
    if c < 0x80 {
      Decodes1(s, p);
    } else if c < 0x800 {
      assert s[p + 1] == s[p..p + |e|][1];
      Decodes2(s, p, c);
    } else if c < 0x10000 {
      assert s[p + 1] == s[p..p + |e|][1] && s[p + 2] == s[p..p + |e|][2];
      Decodes3(s, p, c);
    } else {
      assert s[p + 1] == s[p..p + |e|][1] && s[p + 2] == s[p..p + |e|][2] && s[p + 3] == s[p..p + |e|][3];
      Decodes4(s, p, c);
    }
  }

  lemma Decodes1(s: seq<Byte>, p: nat)
    requires p < |s| && s[p] < 0x80
    ensures Width(s[p]) == 1 && Decode1(s, p) == (s[p], p + 1)
  {
  }

  /** Reading one code point of an encoded text. */
  lemma DecodesNext(s: seq<Byte>, p: nat, cps: seq<nat>)
    requires AreScalars(cps) && p < |s| && s[p..] == EncodeAll(cps)
    ensures cps != [] && p + Width(s[p]) <= |s| && Decode1(s, p).0 == cps[0] &&
            s[Decode1(s, p).1..] == EncodeAll(cps[1..])
  {
    hide Decode1, Width, Encode;
    var e := Encode(cps[0]);
    assert s[p..] == e + EncodeAll(cps[1..]);
    hide EncodeAll;
    assert s[p..][..|e|] == s[p..p + |e|];
    DecodesEncoded(s, p, cps[0]);
    assert s[p..][|e|..] == s[p + |e|..];
  }

  ghost predicate Continues(s: seq<Byte>, p: nat)
    requires p < |s| && p + Width(s[p]) <= |s|
  {
    forall k: nat :: p < k < p + Width(s[p]) ==> 0x80 <= s[k] < 0xC0
  }

  lemma Digits64(a: nat, b: nat, c: nat, d: nat, v: nat)
    requires b < 64 && c < 64 && d < 64 && v == a * 262144 + b * 4096 + c * 64 + d
    ensures v / 262144 == a && v / 4096 % 64 == b && v / 64 % 64 == c && v % 64 == d
    ensures v / 4096 == a * 64 + b && v / 64 == (a * 64 + b) * 64 + c
  {
    assert v / 64 == a * 4096 + b * 64 + c && v / 64 / 64 == a * 64 + b && v / 64 / 64 / 64 == a;
  }

  lemma CheckedValue(a: nat, b: nat, c: nat, d: nat, min: nat)
    requires Checked(a, b, c, d, min) != INVALID
    ensures Checked(a, b, c, d, min) == a * 262144 + b % 64 * 4096 + c % 64 * 64 + d % 64
    ensures IsScalar(Checked(a, b, c, d, min)) && Checked(a, b, c, d, min) >= min
  {
    hide XorTop;
  }

  lemma Accepted2(s: seq<Byte>, p: nat)
    requires p < |s| && Width(s[p]) == 2 && p + 2 <= |s| && Decode1(s, p).0 != INVALID
    ensures var v := Decode1(s, p).0;
            IsScalar(v) && 0x80 <= v < 0x800 && s[p] == 0xC0 + v / 64 && s[p + 1] % 64 == v % 64
  {
    hide Checked;
    CheckedValue(0, 0x80, 0x80 + s[p] % 32, s[p + 1], 0x80);
  }

  lemma Accepted3(s: seq<Byte>, p: nat)
    requires p < |s| && Width(s[p]) == 3 && p + 3 <= |s| && Decode1(s, p).0 != INVALID
    ensures var v := Decode1(s, p).0;
            && IsScalar(v) && 0x800 <= v < 0x10000 && s[p] == 0xE0 + v / 4096
            && s[p + 1] % 64 == v / 64 % 64 && s[p + 2] % 64 == v % 64
  {
    hide Checked;
    CheckedValue(0, 0x80 + s[p] % 16, s[p + 1], s[p + 2], 0x800);
    Digits64(0, s[p] % 16, s[p + 1] % 64, s[p + 2] % 64, Decode1(s, p).0);
  }

  lemma Accepted4(s: seq<Byte>, p: nat)
    requires p < |s| && Width(s[p]) == 4 && p + 4 <= |s| && Decode1(s, p).0 != INVALID
    ensures var v := Decode1(s, p).0;
            && IsScalar(v) && 0x10000 <= v && s[p] == 0xF0 + v / 262144 && s[p + 1] % 64 == v / 4096 % 64
            && s[p + 2] % 64 == v / 64 % 64 && s[p + 3] % 64 == v % 64
  {
    hide Checked;
    CheckedValue(s[p] % 8, s[p + 1], s[p + 2], s[p + 3], 0x10000);
    Digits64(s[p] % 8, s[p + 1] % 64, s[p + 2] % 64, s[p + 3] % 64, Decode1(s, p).0);
  }

  /** Whatever the bytes, an accepted value is a code point, and is not written longer than its encoding. */
  lemma {:induction false} AcceptedIsShortest(s: seq<Byte>, p: nat)
    requires p < |s| && p + Width(s[p]) <= |s| && Decode1(s, p).0 != INVALID
    ensures IsScalar(Decode1(s, p).0) && |Encode(Decode1(s, p).0)| == Width(s[p])
  {
    hide Checked;
    match Width(s[p])
    case 1 =>
    case 2 => Accepted2(s, p);
    case 3 => Accepted3(s, p);
    case _ => Accepted4(s, p);
  }

  lemma Continuation(x: Byte, low: nat)
    requires x % 64 == low
    ensures 0x80 <= x < 0xC0 <==> x == 0x80 + low
  {
  }

  lemma Encoding2(s: seq<Byte>, p: nat)
    requires p < |s| && Width(s[p]) == 2 && p + 2 <= |s| && Decode1(s, p).0 != INVALID && IsScalar(Decode1(s, p).0)
    ensures s[p..p + 2] == Encode(Decode1(s, p).0) <==> Continues(s, p)
  {
    Accepted2(s, p);
    hide Decode1, Width;
    var e := Encode(Decode1(s, p).0);
    assert |e| == 2;
    assert s[p..p + 2] == e <==> s[p] == e[0] && s[p + 1] == e[1];
    Continuation(s[p + 1], e[1] - 0x80);
    assert Continues(s, p) <==> 0x80 <= s[p + 1] < 0xC0;
  }

  lemma Encoding3(s: seq<Byte>, p: nat)
    requires p < |s| && Width(s[p]) == 3 && p + 3 <= |s| && Decode1(s, p).0 != INVALID && IsScalar(Decode1(s, p).0)
    ensures s[p..p + 3] == Encode(Decode1(s, p).0) <==> Continues(s, p)
  {
    Accepted3(s, p);
    hide Decode1, Width;
    var e := Encode(Decode1(s, p).0);
    assert |e| == 3;
    assert s[p..p + 3] == e <==> s[p] == e[0] && s[p + 1] == e[1] && s[p + 2] == e[2];
    Continuation(s[p + 1], e[1] - 0x80);
    Continuation(s[p + 2], e[2] - 0x80);
    assert Continues(s, p) <==> 0x80 <= s[p + 1] < 0xC0 && 0x80 <= s[p + 2] < 0xC0;
  }

  lemma Encoding4(s: seq<Byte>, p: nat)
    requires p < |s| && Width(s[p]) == 4 && p + 4 <= |s| && Decode1(s, p).0 != INVALID && IsScalar(Decode1(s, p).0)
    ensures s[p..p + 4] == Encode(Decode1(s, p).0) <==> Continues(s, p)
  {
    Accepted4(s, p);
    hide Decode1, Width;
    var e := Encode(Decode1(s, p).0);
    assert |e| == 4;
    assert s[p..p + 4] == e <==> s[p] == e[0] && s[p + 1] == e[1] && s[p + 2] == e[2] && s[p + 3] == e[3];
    Continuation(s[p + 1], e[1] - 0x80);
    Continuation(s[p + 2], e[2] - 0x80);
    Continuation(s[p + 3], e[3] - 0x80);
    assert Continues(s, p) <==> 0x80 <= s[p + 1] < 0xC0 && 0x80 <= s[p + 2] < 0xC0 && 0x80 <= s[p + 3] < 0xC0;
  }

  /** The upper bits of continuation bytes are checked only together, so that ill-formed ones may pass: what was
      accepted is the encoding of its value exactly if each of its continuation bytes is one. */
  lemma AcceptedIsEncoding(s: seq<Byte>, p: nat)
    requires p < |s| && p + Width(s[p]) <= |s| && Decode1(s, p).0 != INVALID
    ensures IsScalar(Decode1(s, p).0)
    ensures s[p..p + Width(s[p])] == Encode(Decode1(s, p).0) <==> Continues(s, p)
  {
    AcceptedIsShortest(s, p);
    match Width(s[p])
    case 1 =>
    case 2 => Encoding2(s, p);
    case 3 => Encoding3(s, p);
    case _ => Encoding4(s, p);
  }

  /** Two bytes that are no continuation bytes pass as a pair. */
  lemma IllFormedIsAccepted()
    ensures Decode1([0xE1, 0xC0, 0xC0], 0) == (0x1000, 3) && !Continues([0xE1, 0xC0, 0xC0], 0)
    ensures Encode(0x1000) == [0xE1, 0x80, 0x80]
  {
    assert [0xE1, 0xC0, 0xC0][1] == 0xC0;
  }
}
