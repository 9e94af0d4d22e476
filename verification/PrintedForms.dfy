/** What is printed for an IPv6 address, as a form of section 2.2 of RFC 4291: which words are groups, which are
    abbreviated, and when the last ones are an IPv4 address. */
module PrintedForms {
  import opened FixedWidth
  import opened Options
  import opened AddressTexts
  import opened AddressTexts6
  import opened AddressForms

  /** Words as groups, from i up to j. */
  function Groups(words: seq<nat>, i: nat, j: nat): seq<Item>
    requires i <= j <= |words| && forall k: nat :: k < |words| ==> words[k] < 0x10000
  {
    seq(j - i, k requires 0 <= k < j - i => Group(Hex(words[i + k])))
  }

  /** Without a run, eight groups; else the groups before and after it, where after six zero words, or five and ffff,
      the last two words are an IPv4 address. */
  function PrintedForm(a: Address6, best: Run): Form
    requires IsAbbreviable(Words(a), best)
  {
    if best.base == -1 then Plain(Groups(Words(a), 0, 8))
    else if best.base == 0 && best.len == 6 then Gap([], [Embedded(a[12..16])])
    else if best.base == 0 && best.len == 5 && Words(a)[5] == 0xffff then Gap([], [Group("ffff"), Embedded(a[12..16])])
    else Gap(Groups(Words(a), 0, best.base), Groups(Words(a), best.base + best.len, 8))
  }

  /** Small letters and no zeros in front. */
  ghost predicate IsShortHex(d: string, w: nat) {
    && IsGroup(d) && GroupValue(d) == w
    && (forall c :: c in d ==> '0' <= c <= '9' || 'a' <= c <= 'f')
    && (|d| > 1 ==> d[0] != '0')
  }

  lemma DigitIsShort(d: nat)
    requires d < 16
    ensures HexValue(Digit(d)) == Some(d) && ('0' <= Digit(d) <= '9' || 'a' <= Digit(d) <= 'f')
    ensures Digit(d) == '0' <==> d == 0
  {
  }

  lemma {:induction false} GroupGrows(d: string, w: nat, x: nat)
    requires IsShortHex(d, w) && |d| < 4 && w > 0 && x < 16
    ensures IsShortHex(d + [Digit(x)], 16 * w + x)
  {
    DigitIsShort(x);
    hide Digit, HexValue;
    assert (d + [Digit(x)])[..|d|] == d;
    assert d[0] != '0' by {
      if |d| == 1 && d[0] == '0' {
        assert d[..0] == "" && GroupValue(d) == 0 by { ZeroGroup(d); }
      }
    }
  }

  lemma ZeroGroup(d: string)
    requires d == "0"
    ensures d[..0] == "" && GroupValue(d) == 0
  {
    assert HexValue('0') == Some(0);
    assert GroupValue("") == 0;
  }

  lemma {:induction false} OneDigit(w: nat)
    requires w < 16
    ensures IsShortHex([Digit(w)], w)
  {
    DigitIsShort(w);
    hide Digit, HexValue;
    assert [Digit(w)][..0] == "" && GroupValue("") == 0;
  }

  lemma {:induction false} HexIsShort(w: nat)
    requires w < 0x10000
    ensures IsShortHex(Hex(w), w)
  {
    Nibbles(w);
    hide Digit, IsShortHex;
    var a, b, c, d := Digit(w / 4096 % 16), Digit(w / 256 % 16), Digit(w / 16 % 16), Digit(w % 16);
    assert [c] + [d] == [c, d] && [b] + [c] == [b, c] && [b, c] + [d] == [b, c, d];
    assert [a] + [b] == [a, b] && [a, b] + [c] == [a, b, c] && [a, b, c] + [d] == [a, b, c, d];
    if w < 0x10 {
      OneDigit(w);
    } else if w < 0x100 {
      OneDigit(w / 16);
      GroupGrows([Digit(w / 16)], w / 16, w % 16);
    } else if w < 0x1000 {
      OneDigit(w / 256);
      GroupGrows([Digit(w / 256)], w / 256, w / 16 % 16);
      GroupGrows([Digit(w / 256), Digit(w / 16 % 16)], w / 16, w % 16);
    } else {
      OneDigit(w / 4096);
      GroupGrows([Digit(w / 4096)], w / 4096, w / 256 % 16);
      GroupGrows([Digit(w / 4096), Digit(w / 256 % 16)], w / 256, w / 16 % 16);
      GroupGrows([Digit(w / 4096), Digit(w / 256 % 16), Digit(w / 16 % 16)], w / 16, w % 16);
    }
  }

  /** The items that are printed from word i on, after the run if there is one. */
  function ItemsFrom(a: Address6, best: Run, i: nat): seq<Item>
    requires i <= 8
    decreases 8 - i
  {
    if i == 8 then []
    else if Encapsulates(Words(a), best, i) then [Embedded(a[12..16])]
    else [Group(Hex(Words(a)[i]))] + ItemsFrom(a, best, i + 1)
  }

  lemma Associates(colon: string, word: string, rest: string, tail: string)
    ensures colon + word + (":" + rest + tail) == colon + (word + ":" + rest) + tail
    ensures colon + word + (":" + rest) == colon + (word + ":" + rest)
  {
    assert word + (":" + rest) == word + ":" + rest;
  }

  lemma ItemsOfGroup(a: Address6, best: Run, i: nat)
    requires i < 8 && !Encapsulates(Words(a), best, i)
    ensures ItemsFrom(a, best, i) == [Group(Hex(Words(a)[i]))] + ItemsFrom(a, best, i + 1)
    ensures i < 7 ==> ItemsFrom(a, best, i + 1) != []
  {
  }

  /** Where the run is behind, the text from word i on is those items, and ends with the last of them. */
  lemma {:induction false} FormatIsItems(a: Address6, best: Run, i: nat)
    requires i < 8 && (best.base == -1 || best.base + best.len <= i)
    ensures Format(a, best, i) == (if i != 0 then ":" else "") + Join(ItemsFrom(a, best, i))
    decreases 8 - i
  {
    assert !Inside(best, i);
    if Encapsulates(Words(a), best, i) {
      FormatOfAddress(a, best, i);
      assert ItemsFrom(a, best, i) == [Embedded(a[12..16])];
    } else {
      FormatOfGroup(a, best, i);
      ItemsOfGroup(a, best, i);
      LastIsItems(a, best, i);
      hide Format, Words, Hex, ItemsFrom, Encapsulates, Inside;
      if i < 7 {
        var rest := ItemsFrom(a, best, i + 1);
        FormatIsItems(a, best, i + 1);
        JoinNext(Group(Hex(Words(a)[i])), rest);
        Associates(if i != 0 then ":" else "", Hex(Words(a)[i]), Join(rest), "");
        hide Join;
      }
    }
  }

  lemma LastIsItems(a: Address6, best: Run, i: nat)
    requires i < 8 && !Inside(best, i) && !Encapsulates(Words(a), best, i)
    requires best.base == -1 || best.base + best.len <= i
    ensures i == 7 ==> Format(a, best, i) == ":" + Join(ItemsFrom(a, best, i))
  {
    hide Words, Hex;
    if i == 7 {
      FormatOfGroup(a, best, i);
      assert ItemsFrom(a, best, 8) == [] && Format(a, best, 8) == "";
      assert ItemsFrom(a, best, 7) == [Group(Hex(Words(a)[7]))];
    }
  }

  lemma FormatOfAddress(a: Address6, best: Run, i: nat)
    requires i < 8 && !Inside(best, i) && Encapsulates(Words(a), best, i)
    ensures Format(a, best, i) == ":" + Text4(a[12..16])
  {
  }

  lemma FormatOfGroup(a: Address6, best: Run, i: nat)
    requires i < 8 && !Inside(best, i) && !Encapsulates(Words(a), best, i)
    ensures Format(a, best, i) == (if i != 0 then ":" else "") + Hex(Words(a)[i]) + Format(a, best, i + 1)
  {
    hide Words, Hex, Text4;
  }

  lemma JoinNext(x: Item, rest: seq<Item>)
    requires rest != []
    ensures Join([x] + rest) == ItemText(x) + ":" + Join(rest)
  {
    assert ([x] + rest)[1..] == rest;
  }

  /** The text up to the run. */
  lemma {:induction false} FormatIsGroups(a: Address6, best: Run, i: nat)
    requires IsAbbreviable(Words(a), best) && best.base > i
    ensures Format(a, best, i)
         == (if i != 0 then ":" else "") + Join(Groups(Words(a), i, best.base)) + Format(a, best, best.base)
    decreases best.base - i
  {
    var first, rest := Group(Hex(Words(a)[i])), Groups(Words(a), i + 1, best.base);
    FormatOfGroup(a, best, i);
    assert Groups(Words(a), i, best.base) == [first] + rest;
    hide Hex, Words, Format, Groups, Inside, Encapsulates, IsAbbreviable;
    if i + 1 < best.base {
      GroupsAre(a, i + 1, best.base);
      FormatIsGroups(a, best, i + 1);
      JoinNext(first, rest);
      Associates(if i != 0 then ":" else "", first.digits, Join(rest), Format(a, best, best.base));
    } else {
      GroupsAre(a, i + 1, best.base);
      assert [first] + rest == [first];
    }
  }

  lemma GroupsAre(a: Address6, i: nat, j: nat)
    requires i <= j <= 8
    ensures |Groups(Words(a), i, j)| == j - i
  {
  }

  lemma {:induction false} ItemsAreGroups(a: Address6, best: Run, i: nat)
    requires i <= 8 && (i > 6 || !Encapsulates(Words(a), best, 6))
    ensures ItemsFrom(a, best, i) == Groups(Words(a), i, 8)
    decreases 8 - i
  {
    if i < 8 {
      ItemsAreGroups(a, best, i + 1);
      assert Groups(Words(a), i, 8) == [Group(Hex(Words(a)[i]))] + Groups(Words(a), i + 1, 8);
    }
  }

  /** The printed text is that of the form. */
  lemma {:induction false} FormatIsForm(a: Address6, best: Run)
    requires IsAbbreviable(Words(a), best)
    ensures Format(a, best, 0) == FormText(PrintedForm(a, best))
  {
    if best.base == -1 {
      FormatIsItems(a, best, 0);
      ItemsAreGroups(a, best, 0);
      assert "" + Join(Groups(Words(a), 0, 8)) == Join(Groups(Words(a), 0, 8));
    } else {
      GapIsForm(a, best);
    }
  }

  lemma {:induction false} BeforeGap(a: Address6, best: Run)
    requires IsAbbreviable(Words(a), best) && best.base != -1
    ensures 0 <= best.base <= 8
    ensures Format(a, best, 0) == Join(Groups(Words(a), 0, best.base)) + Format(a, best, best.base)
  {
    hide Hex, Format;
    var base: nat := best.base;
    var groups := Groups(Words(a), 0, base);
    if base > 0 {
      FormatIsGroups(a, best, 0);
      assert "" + Join(groups) == Join(groups);
    } else {
      assert Join(groups) == "" && "" + Format(a, best, 0) == Format(a, best, 0);
    }
  }

  lemma {:induction false} GapIsForm(a: Address6, best: Run)
    requires IsAbbreviable(Words(a), best) && best.base != -1
    ensures Format(a, best, 0) == FormText(PrintedForm(a, best))
  {
    hide *;
    BeforeGap(a, best);
    AfterGap(a, best);
    RunPrints(a, best);
    AfterText(a, best);
    GapText(PrintedForm(a, best));
  }

  lemma GapText(f: Form)
    requires f.Gap?
    ensures FormText(f) == Join(f.before) + (":" + (":" + Join(f.after)))
  {
    hide Join;
    assert ":" + (":" + Join(f.after)) == "::" + Join(f.after);
  }

  lemma {:induction false} AfterText(a: Address6, best: Run)
    requires IsAbbreviable(Words(a), best) && best.base != -1
    ensures Format(a, best, best.base + best.len) == ":" + Join(ItemsFrom(a, best, best.base + best.len))
  {
    if best.base + best.len < 8 {
      FormatIsItems(a, best, best.base + best.len);
    }
  }

  lemma {:induction false} AfterGap(a: Address6, best: Run)
    requires IsAbbreviable(Words(a), best) && best.base != -1
    ensures 0 <= best.base && best.base + best.len <= 8
    ensures PrintedForm(a, best) == Gap(Groups(Words(a), 0, best.base), ItemsFrom(a, best, best.base + best.len))
  {
    var end := best.base + best.len;
    if best.base == 0 && best.len == 6 {
      assert Encapsulates(Words(a), best, 6);
    } else if best.base == 0 && best.len == 5 && Words(a)[5] == 0xffff {
      assert Encapsulates(Words(a), best, 6);
      assert ItemsFrom(a, best, 6) == [Embedded(a[12..16])];
      assert Hex(0xffff) == "ffff";
    } else {
      ItemsAreGroups(a, best, end);
    }
  }

  // Two of the examples of section 2.2.

  lemma {:induction false} Digits4(d: string, w: nat, x: nat, y: nat, z: nat)
    requires |d| == 4 && HexValue(d[0]) == Some(w) && HexValue(d[1]) == Some(x)
    requires HexValue(d[2]) == Some(y) && HexValue(d[3]) == Some(z) && w < 16 && x < 16 && y < 16 && z < 16
    ensures IsGroup(d) && GroupValue(d) == ((w * 16 + x) * 16 + y) * 16 + z
    ensures WordBytes(GroupValue(d)) == [w * 16 + x, y * 16 + z]
  {
    hide HexValue;
    var d3, d2, d1 := d[..3], d[..2], d[..1];
    assert d3[..2] == d2 && d2[..1] == d1 && d1[..0] == "";
    assert GroupValue(d1) == w && GroupValue(d2) == w * 16 + x && GroupValue(d3) == (w * 16 + x) * 16 + y;
  }

  lemma {:induction false} Digits3(d: string, x: nat, y: nat, z: nat)
    requires |d| == 3 && HexValue(d[0]) == Some(x) && HexValue(d[1]) == Some(y) && HexValue(d[2]) == Some(z)
    requires x < 16 && y < 16 && z < 16
    ensures IsGroup(d) && WordBytes(GroupValue(d)) == [x, y * 16 + z]
  {
    hide HexValue;
    var d2, d1 := d[..2], d[..1];
    assert d2[..1] == d1 && d1[..0] == "";
    assert GroupValue(d1) == x && GroupValue(d2) == x * 16 + y;
  }

  lemma {:induction false} Digits1(d: string, z: nat)
    requires |d| == 1 && HexValue(d[0]) == Some(z) && z < 16
    ensures IsGroup(d) && WordBytes(GroupValue(d)) == [0, z]
  {
    hide HexValue;
    assert d[..0] == "";
  }

  lemma {:induction false} TwoItems(x: Item, y: Item)
    ensures Join([x, y]) == ItemText(x) + ":" + ItemText(y) && BytesOf([x, y]) == ItemBytes(x) + ItemBytes(y)
  {
    hide ItemText, ItemBytes;
    assert [x, y][1..] == [y] && [y][1..] == [];
    assert ItemBytes(y) + [] == ItemBytes(y) && BytesOf([y]) == ItemBytes(y);
  }

  lemma {:induction false} MoreItems(x: Item, rest: seq<Item>)
    requires rest != []
    ensures Join([x] + rest) == ItemText(x) + ":" + Join(rest) && BytesOf([x] + rest) == ItemBytes(x) + BytesOf(rest)
  {
    assert ([x] + rest)[1..] == rest;
  }

  lemma SampleWords()
    ensures IsGroup("2001") && WordBytes(GroupValue("2001")) == [0x20, 0x01]
    ensures IsGroup("DB8") && WordBytes(GroupValue("DB8")) == [0x0D, 0xB8]
    ensures IsGroup("8") && WordBytes(GroupValue("8")) == [0x00, 0x08]
    ensures IsGroup("800") && WordBytes(GroupValue("800")) == [0x08, 0x00]
    ensures IsGroup("200C") && WordBytes(GroupValue("200C")) == [0x20, 0x0C]
    ensures IsGroup("417A") && WordBytes(GroupValue("417A")) == [0x41, 0x7A]
  {
    Digits4("2001", 2, 0, 0, 1);
    Digits3("DB8", 13, 11, 8);
    Digits1("8", 8);
    Digits3("800", 8, 0, 0);
    Digits4("200C", 2, 0, 0, 12);
    Digits4("417A", 4, 1, 7, 10);
    hide IsGroup, GroupValue, WordBytes;
  }

  lemma SampleBefore(before: seq<Item>)
    requires before == [Group("2001"), Group("DB8")]
    ensures AreGroups(before) && Join(before) == "2001:DB8" && BytesOf(before) == [0x20, 0x01, 0x0D, 0xB8]
  {
    SampleWords();
    TwoItems(Group("2001"), Group("DB8"));
    hide Join, BytesOf, IsGroup, GroupValue, WordBytes;
  }

  lemma SampleLast(last: seq<Item>)
    requires last == [Group("200C"), Group("417A")]
    ensures AreGroups(last) && Join(last) == "200C:417A" && BytesOf(last) == [0x20, 0x0C, 0x41, 0x7A]
  {
    SampleWords();
    TwoItems(Group("200C"), Group("417A"));
    hide Join, BytesOf, IsGroup, GroupValue, WordBytes;
  }

  lemma SampleAfter(last: seq<Item>, after: seq<Item>)
    requires last == [Group("200C"), Group("417A")] && after == [Group("8")] + ([Group("800")] + last)
    ensures AreItems(after) && Join(after) == "8:800:200C:417A"
    ensures BytesOf(after) == [0, 8, 8, 0, 0x20, 0x0C, 0x41, 0x7A]
  {
    SampleWords();
    SampleLast(last);
    MoreItems(Group("800"), last);
    MoreItems(Group("8"), [Group("800")] + last);
    hide Join, BytesOf, IsGroup, GroupValue, WordBytes;
    assert "8" + ":" + ("800" + ":" + "200C:417A") == "8:800:200C:417A";
  }

  /** The parser reads this text as it should. */
  lemma SampleIsRead()
    ensures Parse6("2001:DB8::8:800:200C:417A") ==
            Some([0x20, 0x01, 0x0D, 0xB8, 0, 0, 0, 0, 0, 8, 8, 0, 0x20, 0x0C, 0x41, 0x7A])
  {
    var before, last := [Group("2001"), Group("DB8")], [Group("200C"), Group("417A")];
    var after := [Group("8")] + ([Group("800")] + last);
    SampleBefore(before);
    SampleAfter(last, after);
    SampleText();
    var f, bytes := Gap(before, after), BytesOf(before) + Zeros(4) + BytesOf(after);
    assert Denotes(f, bytes) && FormText(f) == "2001:DB8" + "::" + "8:800:200C:417A";
    hide *;
    FormIsRead(f, bytes);
  }

  lemma SampleText()
    ensures "2001:DB8" + "::" + "8:800:200C:417A" == "2001:DB8::8:800:200C:417A"
    ensures [0x20, 0x01, 0x0D, 0xB8] + Zeros(4) + [0, 8, 8, 0, 0x20, 0x0C, 0x41, 0x7A] ==
            [0x20, 0x01, 0x0D, 0xB8, 0, 0, 0, 0, 0, 8, 8, 0, 0x20, 0x0C, 0x41, 0x7A]
  {
    assert Zeros(4) == [0, 0, 0, 0];
  }
}
