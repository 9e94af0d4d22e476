/** The texts of section 2.2 of RFC 4291, as forms that have a text and an address, and that the parser accepts exactly
    these. */
module AddressForms {
  import opened FixedWidth
  import opened Options
  import opened AddressTexts
  import opened AddressTexts6

  /** What stands between colons: hexadecimal digits, or at the end an IPv4 address. */
  datatype Item = Group(digits: string) | Embedded(v4: Address4)

  /** All items, or those before and after the :: that stands for zeros. */
  datatype Form = Plain(items: seq<Item>) | Gap(before: seq<Item>, after: seq<Item>)

  predicate IsGroup(d: string) {
    1 <= |d| <= 4 && forall i: nat :: i < |d| ==> HexValue(d[i]).Some?
  }

  function GroupValue(d: string): nat {
    if d == "" then 0
    else GroupValue(d[..|d| - 1]) * 16 + match HexValue(d[|d| - 1]) case Some(v) => v case None => 0
  }

  predicate AreGroups(items: seq<Item>) {
    forall i: nat :: i < |items| ==> items[i].Group? && IsGroup(items[i].digits)
  }

  /** Groups, and possibly an IPv4 address at the end. */
  predicate AreItems(items: seq<Item>) {
    items == [] || AreGroups(items) || (AreGroups(items[..|items| - 1]) && items[|items| - 1].Embedded?)
  }

  function ItemText(x: Item): string {
    match x
    case Group(d) => d
    case Embedded(v4) => Text4(v4)
  }

  function ItemBytes(x: Item): seq<Byte> {
    match x
    case Group(d) => WordBytes(GroupValue(d))
    case Embedded(v4) => v4
  }

  function Join(items: seq<Item>): string {
    if items == [] then ""
    else if |items| == 1 then ItemText(items[0])
    else ItemText(items[0]) + ":" + Join(items[1..])
  }

  function BytesOf(items: seq<Item>): seq<Byte> {
    if items == [] then [] else ItemBytes(items[0]) + BytesOf(items[1..])
  }

  predicate IsForm(f: Form) {
    match f
    case Plain(items) => AreItems(items)
    case Gap(before, after) => AreGroups(before) && AreItems(after)
  }

  function FormText(f: Form): string {
    match f
    case Plain(items) => Join(items)
    case Gap(before, after) => Join(before) + "::" + Join(after)
  }

  /** The address of a form: all sixteen bytes are there, or the :: stands for those that are missing, at least one. */
  predicate Denotes(f: Form, a: seq<Byte>) {
    match f
    case Plain(items) => a == BytesOf(items) && |a| == 16
    case Gap(before, after) =>
      var n := |BytesOf(before)| + |BytesOf(after)|;
      n < 16 && a == BytesOf(before) + Zeros(16 - n) + BytesOf(after)
  }

  // The rest of a form, as the parser meets it.

  /** Groups, each followed by a colon. */
  function Lead(groups: seq<Item>): string {
    if groups == [] then "" else ItemText(groups[0]) + ":" + Lead(groups[1..])
  }

  function RestText(f: Form): string {
    match f
    case Plain(items) => Join(items)
    case Gap(before, after) => Lead(before) + ":" + Join(after)
  }

  predicate IsRest(f: Form, colon: Option<nat>) {
    && IsForm(f)
    && match f
       case Plain(items) => colon == None ==> items != []
       case Gap(_, _) => colon == None
  }

  function Placed(bytes: seq<Byte>, colon: Option<nat>): Option<seq<Byte>> {
    Finish(Scan6(bytes, colon, "", 0, 0))
  }

  function RestValue(bytes: seq<Byte>, colon: Option<nat>, f: Form): Option<seq<Byte>> {
    match f
    case Plain(items) => Placed(bytes + BytesOf(items), colon)
    case Gap(before, after) => Placed(bytes + BytesOf(before) + BytesOf(after), Some(|bytes| + |BytesOf(before)|))
  }

  /** Putting one group in front. */
  function Before(x: Item, f: Form): Form {
    match f
    case Plain(items) => Plain([x] + items)
    case Gap(before, after) => Gap([x] + before, after)
  }

  lemma BeforeText(x: Item, f: Form)
    requires f.Plain? ==> f.items != []
    ensures RestText(Before(x, f)) == ItemText(x) + ":" + RestText(f)
  {
    hide ItemText;
    if f.Plain? {
      assert ([x] + f.items)[1..] == f.items;
    } else {
      assert ([x] + f.before)[1..] == f.before;
      assert Lead([x] + f.before) == ItemText(x) + ":" + Lead(f.before);
    }
  }

  lemma BeforeBytes(x: Item, items: seq<Item>, bytes: seq<Byte>)
    ensures bytes + BytesOf([x] + items) == bytes + ItemBytes(x) + BytesOf(items)
  {
    assert ([x] + items)[1..] == items;
  }

  lemma BeforeValue(x: Item, f: Form, bytes: seq<Byte>, colon: Option<nat>)
    ensures RestValue(bytes, colon, Before(x, f)) == RestValue(bytes + ItemBytes(x), colon, f)
  {
    match f
    case Plain(items) => BeforeBytes(x, items, bytes);
    case Gap(before, after) =>
      BeforeBytes(x, before, bytes);
      BeforeBytes(x, before, []);
      assert |bytes| + |BytesOf([x] + before)| == |bytes + ItemBytes(x)| + |BytesOf(before)|;
  }

  lemma BeforeIsRest(d: string, f: Form, colon: Option<nat>)
    requires IsGroup(d) && IsRest(f, colon) && (f.Plain? ==> f.items != [])
    ensures IsRest(Before(Group(d), f), colon)
  {
    if f.Plain? {
      var items := [Group(d)] + f.items;
      assert items[..|items| - 1] == [Group(d)] + f.items[..|f.items| - 1];
    }
  }

  // What the parser accepts is a form.

  lemma DigitAdded(d: string, c: char)
    requires (d == "" || IsGroup(d)) && |d| < 4 && HexValue(c).Some?
    ensures IsGroup(d + [c]) && GroupValue(d + [c]) == GroupValue(d) * 16 + HexValue(c).value
  {
    assert (d + [c])[..|d|] == d;
  }

  /** The parser's state in the middle of an item: the digits since the last colon are pending, and s is still to be
      read. */
  ghost predicate Pending(st: Scan6, d: string, s: string) {
    && (d == "" || IsGroup(d)) && st.seen == |d| && st.val == GroupValue(d) && st.token == d + s
    && (st.colon == None && st.token == "" ==> |st.bytes| < 16)
  }

  lemma ContinueDigit(st: Scan6, s: string)
    requires Continue(st, s).Some? && s != "" && HexValue(s[0]).Some?
    ensures st.seen < 4
    ensures Continue(st, s) == Continue(st.(val := st.val * 16 + HexValue(s[0]).value, seen := st.seen + 1), s[1..])
  {
    hide Finish, Parse4, HexValue;
  }

  lemma ContinueColon(st: Scan6, s: string)
    requires Continue(st, s).Some? && s != "" && s[0] == ':'
    ensures if st.seen == 0 then st.colon == None else s[1..] != ""
    ensures Continue(st, s) == Continue(
              if st.seen == 0 then st.(colon := Some(|st.bytes|), token := s[1..])
              else Scan6(st.bytes + WordBytes(st.val), st.colon, s[1..], 0, 0), s[1..])
  {
    hide Finish, Parse4;
  }

  lemma ContinueDot(st: Scan6, s: string)
    requires Continue(st, s).Some? && s != "" && HexValue(s[0]) == None && s[0] != ':'
    ensures Parse4(st.token).Some? && Continue(st, s) == Placed(st.bytes + Parse4(st.token).value, st.colon)
  {
    hide Parse4, HexValue;
    assert Finish(st.(bytes := st.bytes + Parse4(st.token).value, seen := 0)) ==
           Placed(st.bytes + Parse4(st.token).value, st.colon);
  }

  lemma ContinueEnd(st: Scan6)
    requires Continue(st, "").Some?
    ensures Continue(st, "") == Placed(st.bytes + if st.seen > 0 then WordBytes(st.val) else [], st.colon)
  {
    assert Run6(st, "") == Some(st);
    var bytes := st.bytes + if st.seen > 0 then WordBytes(st.val) else [];
    assert bytes + [] == bytes;
  }

  /** A text that is accepted from a state on is the rest of a form with that value. */
  lemma {:induction false} AcceptsRest(st: Scan6, d: string, s: string) returns (f: Form)
    requires Pending(st, d, s) && Continue(st, s).Some?
    ensures IsRest(f, st.colon) && RestText(f) == d + s && RestValue(st.bytes, st.colon, f) == Continue(st, s)
    decreases |s|, 1
  {
    hide Run6, Continue, Finish, Placed, Parse4, HexValue, WordBytes;
    if s == "" {
      ContinueEnd(st);
      f := AcceptsEnd(st, d);
    } else if HexValue(s[0]).Some? {
      ContinueDigit(st, s);
      DigitAdded(d, s[0]);
      assert d + [s[0]] + s[1..] == d + s;
      hide RestText, RestValue, IsRest, IsGroup, GroupValue;
      f := AcceptsRest(st.(val := st.val * 16 + HexValue(s[0]).value, seen := st.seen + 1), d + [s[0]], s[1..]);
    } else if s[0] == ':' {
      if d == "" {
        f := AcceptsGap(st, s);
      } else {
        f := AcceptsNext(st, d, s);
      }
    } else {
      ContinueDot(st, s);
      var v4 := Parse4(st.token).value;
      ParsesExactly(st.token, v4);
      f := Plain([Embedded(v4)]);
      assert BytesOf(f.items) == v4 + [] == v4;
    }
  }

  lemma AcceptsEnd(st: Scan6, d: string) returns (f: Form)
    requires Pending(st, d, "") && Continue(st, "").Some?
    ensures IsRest(f, st.colon) && RestText(f) == d + "" && RestValue(st.bytes, st.colon, f) == Continue(st, "")
  {
    ContinueEnd(st);
    hide Run6, Continue, IsGroup, GroupValue;
    if d == "" {
      f := Plain([]);
      assert BytesOf([]) == [];
    } else {
      f := Plain([Group(d)]);
      assert f.items[1..] == [] && BytesOf(f.items) == WordBytes(st.val) + [] == WordBytes(st.val);
    }
  }

  /** A colon where an item could start. */
  lemma {:induction false} AcceptsGap(st: Scan6, s: string) returns (f: Form)
    requires Pending(st, "", s) && Continue(st, s).Some? && s != "" && s[0] == ':'
    ensures IsRest(f, st.colon) && RestText(f) == "" + s && RestValue(st.bytes, st.colon, f) == Continue(st, s)
    decreases |s|, 0
  {
    hide Run6, Continue, Placed, Parse4, HexValue;
    ContinueColon(st, s);
    var next := st.(colon := Some(|st.bytes|), token := s[1..]);
    assert "" + s[1..] == s[1..] && s == ":" + s[1..];
    var g := AcceptsRest(next, "", s[1..]);
    f := Gap([], g.items);
    GapIsRest(st.bytes, g.items);
    hide RestText, RestValue;
  }

  /** A colon that ends a group. */
  lemma {:induction false} AcceptsNext(st: Scan6, d: string, s: string) returns (f: Form)
    requires Pending(st, d, s) && d != "" && Continue(st, s).Some? && s != "" && s[0] == ':'
    ensures IsRest(f, st.colon) && RestText(f) == d + s && RestValue(st.bytes, st.colon, f) == Continue(st, s)
    decreases |s|, 0
  {
    ContinueColon(st, s);
    hide Run6, Continue, Placed, Parse4, HexValue, WordBytes, IsGroup, RestText, RestValue, IsRest, Before;
    var next := Scan6(st.bytes + WordBytes(st.val), st.colon, s[1..], 0, 0);
    assert "" + s[1..] == s[1..] && d + s == d + ":" + s[1..];
    assert Pending(next, "", s[1..]);
    var g := AcceptsRest(next, "", s[1..]);
    NotEmpty(g, s[1..]);
    f := Before(Group(d), g);
    BeforeText(Group(d), g);
    BeforeValue(Group(d), g, st.bytes, st.colon);
    BeforeIsRest(d, g, st.colon);
  }

  lemma NotEmpty(f: Form, s: string)
    requires RestText(f) == "" + s && s != ""
    ensures f.Plain? ==> f.items != []
  {
  }

  lemma {:induction false} GapIsRest(bytes: seq<Byte>, items: seq<Item>)
    ensures RestText(Gap([], items)) == ":" + Join(items)
    ensures RestValue(bytes, None, Gap([], items)) == RestValue(bytes, Some(|bytes|), Plain(items))
  {
    hide Join, Placed;
    assert Lead([]) == "" && BytesOf([]) == [];
    hide Lead, BytesOf;
    assert "" + ":" + Join(items) == ":" + Join(items);
    assert bytes + [] + BytesOf(items) == bytes + BytesOf(items);
  }

  // Every form is accepted.

  lemma {:induction false} ReadsGroup(st: Scan6, d: string, rest: string)
    requires st.seen == 0 && st.val == 0 && (d == "" || IsGroup(d))
    ensures Run6(st, d + rest) == Run6(st.(val := GroupValue(d), seen := |d|), rest)
    decreases |d|
  {
    hide Run6, HexValue;
    if d == "" {
      assert d + rest == rest;
    } else {
      var k := |d| - 1;
      assert d + rest == d[..k] + ([d[k]] + rest);
      ReadsGroup(st, d[..k], [d[k]] + rest);
      ReadsDigit(st.(val := GroupValue(d[..k]), seen := k), d[k], rest);
    }
  }

  /** The parser's state where an item starts. */
  ghost predicate Starts(st: Scan6, f: Form) {
    st.seen == 0 && st.val == 0 && st.token == RestText(f) && IsRest(f, st.colon)
  }

  lemma {:induction false} ReadsRest(st: Scan6, f: Form)
    requires Starts(st, f) && RestValue(st.bytes, st.colon, f).Some?
    ensures Continue(st, RestText(f)) == RestValue(st.bytes, st.colon, f)
    decreases |RestText(f)|
  {
    match f
    case Plain(items) =>
      if items == [] {
        ReadsNothing(st);
      } else if items[0].Embedded? {
        ReadsEmbedded(st, items[0].v4, f);
      } else if |items| == 1 {
        ReadsLastGroup(st, items[0].digits, f);
      } else {
        assert [items[0]] + items[1..] == items;
        GroupsFirst(items);
        ReadsNext(st, items[0].digits, Plain(items[1..]), f);
      }
    case Gap(before, after) =>
      if before == [] {
        ReadsGap(st, after);
      } else {
        assert [before[0]] + before[1..] == before;
        ReadsNext(st, before[0].digits, Gap(before[1..], after), f);
      }
  }

  lemma ReadsNothing(st: Scan6)
    requires st.seen == 0
    ensures Continue(st, Join([])) == RestValue(st.bytes, st.colon, Plain([]))
  {
    assert Run6(st, "") == Some(st);
    assert st.bytes + [] == st.bytes;
  }

  lemma ReadsEmbedded(st: Scan6, v4: Address4, f: Form)
    requires Starts(st, f) && f.Plain? && f.items != [] && f.items[0] == Embedded(v4)
    requires RestValue(st.bytes, st.colon, f).Some?
    ensures Continue(st, RestText(f)) == RestValue(st.bytes, st.colon, f)
  {
    var rest := Decimal(v4[1]) + "." + Decimal(v4[2]) + "." + Decimal(v4[3]);
    assert f.items == [Embedded(v4)];
    assert BytesOf(f.items) == v4 + [] == v4;
    Text4Splits(v4);
    hide Run6, Decimal, Text4;
    var end := ReadsDecimal(st, v4[0], "." + rest);
    ReadsDot(end, rest, v4);
    var bytes := st.bytes + v4;
    assert bytes + [] == bytes;
  }

  lemma ReadsLastGroup(st: Scan6, d: string, f: Form)
    requires Starts(st, f) && f == Plain([Group(d)]) && RestValue(st.bytes, st.colon, f).Some?
    ensures Continue(st, RestText(f)) == RestValue(st.bytes, st.colon, f)
  {
    assert f.items[0] == Group(d) && |d| >= 1;
    hide IsGroup, GroupValue, WordBytes;
    assert BytesOf(f.items) == WordBytes(GroupValue(d)) + [] == WordBytes(GroupValue(d));
    assert RestText(f) == d == d + "";
    ReadsGroup(st, d, "");
    var end := st.(val := GroupValue(d), seen := |d|);
    assert Run6(end, "") == Some(end);
    var bytes := st.bytes + WordBytes(GroupValue(d));
    assert bytes + [] == bytes;
  }

  lemma GroupsFirst(items: seq<Item>)
    requires AreItems(items) && |items| > 1
    ensures items[0].Group? && IsGroup(items[0].digits) && AreItems(items[1..])
  {
    var init := items[..|items| - 1];
    assert items[0] == init[0] && items[1..][..|items| - 2] == init[1..];
  }

  lemma HasText(f: Form)
    requires IsForm(f) && (f.Plain? ==> f.items != [])
    ensures RestText(f) != ""
  {
    if f.Plain? && |f.items| == 1 && f.items[0].Embedded? {
      Text4Splits(f.items[0].v4);
    }
  }

  lemma ValueFits(bytes: seq<Byte>, colon: Option<nat>, f: Form)
    requires RestValue(bytes, colon, f).Some?
    ensures |bytes| <= 16
  {
  }

  lemma ContinuesNext(st: Scan6, d: string, rest: string)
    requires st.seen == 0 && st.val == 0 && IsGroup(d) && rest != "" && |st.bytes| + 2 <= 16
    ensures Continue(st, d + ":" + rest) ==
            Continue(Scan6(st.bytes + WordBytes(GroupValue(d)), st.colon, rest, 0, 0), rest)
  {
    assert |d| > 0;
    hide Run6, Finish, WordBytes, GroupValue, IsGroup;
    assert d + ":" + rest == d + (":" + rest);
    ReadsGroup(st, d, ":" + rest);
    ReadsColon(st.(val := GroupValue(d), seen := |d|), rest);
  }

  lemma {:induction false} ReadsNext(st: Scan6, d: string, g: Form, f: Form)
    requires Starts(st, f) && IsGroup(d) && f == Before(Group(d), g) && IsRest(g, st.colon) &&
             (g.Plain? ==> g.items != [])
    requires RestValue(st.bytes, st.colon, f).Some?
    ensures Continue(st, RestText(f)) == RestValue(st.bytes, st.colon, f)
    decreases |RestText(f)|, 0
  {
    BeforeText(Group(d), g);
    BeforeValue(Group(d), g, st.bytes, st.colon);
    HasText(g);
    hide Run6, Continue, WordBytes, IsGroup, RestText, RestValue, IsRest, Before, GroupValue;
    var next := Scan6(st.bytes + WordBytes(GroupValue(d)), st.colon, RestText(g), 0, 0);
    ValueFits(next.bytes, st.colon, g);
    ContinuesNext(st, d, RestText(g));
    ReadsRest(next, g);
  }

  lemma {:induction false} ReadsGap(st: Scan6, after: seq<Item>)
    requires Starts(st, Gap([], after)) && RestValue(st.bytes, st.colon, Gap([], after)).Some?
    ensures Continue(st, RestText(Gap([], after))) == RestValue(st.bytes, st.colon, Gap([], after))
    decreases |RestText(Gap([], after))|, 0
  {
    GapIsRest(st.bytes, after);
    hide Run6, RestValue, Finish, Join;
    ReadsColon(st, Join(after));
    ReadsRest(st.(colon := Some(|st.bytes|), token := Join(after)), Plain(after));
  }

  // Whole texts.

  lemma {:induction false} LeadJoins(groups: seq<Item>)
    requires groups != []
    ensures Lead(groups) == Join(groups) + ":"
  {
    hide ItemText;
    if |groups| > 1 {
      LeadJoins(groups[1..]);
    }
  }

  /** The text of a form is what is read, after the first colon of a :: at the start. */
  lemma TextIsRest(f: Form)
    ensures FormText(f) == if f.Gap? && f.before == [] then ":" + RestText(f) else RestText(f)
  {
    hide ItemText;
    if f.Gap? {
      if f.before != [] {
        LeadJoins(f.before);
        assert Join(f.before) + ":" + (":" + Join(f.after)) == Join(f.before) + "::" + Join(f.after);
      }
    }
  }

  lemma DenotesIsValue(f: Form, a: seq<Byte>)
    ensures Denotes(f, a) <==> RestValue([], None, f) == Some(a)
  {
    match f
    case Plain(items) =>
      var b := BytesOf(items);
      assert [] + b == b && b + [] == b;
    case Gap(before, after) =>
      var b, c := BytesOf(before), BytesOf(after);
      assert [] + b + c == b + c && b + c + [] == b + c && (b + c)[..|b|] == b && (b + c)[|b|..] == c;
  }

  /** Only a :: at the start starts with a colon. */
  lemma {:induction false} FirstIsColon(f: Form)
    requires IsForm(f) && RestText(f) != ""
    ensures RestText(f)[0] == ':' <==> f.Gap? && f.before == []
  {
    hide ItemText, IsGroup;
    var items := if f.Plain? then f.items else f.before;
    if items != [] {
      ItemStarts(items[0]);
    }
  }

  lemma ItemStarts(x: Item)
    requires x.Embedded? || IsGroup(x.digits)
    ensures ItemText(x) != "" && ItemText(x)[0] != ':'
  {
    if x.Embedded? {
      Text4Splits(x.v4);
    }
  }

  /** The parser accepts exactly the texts of the forms, and gives their addresses. */
  lemma AcceptsForms(s: string, a: seq<Byte>)
    ensures Parse6(s) == Some(a) <==> exists f :: IsForm(f) && FormText(f) == s && Denotes(f, a)
  {
    if Parse6(s) == Some(a) {
      var f := FormOf(s, a);
    }
    forall f | IsForm(f) && FormText(f) == s && Denotes(f, a) ensures Parse6(s) == Some(a) {
      FormIsRead(f, a);
    }
  }

  lemma FormOf(s: string, a: seq<Byte>) returns (f: Form)
    requires Parse6(s) == Some(a)
    ensures IsForm(f) && FormText(f) == s && Denotes(f, a)
  {
    var src := if s != "" && s[0] == ':' then s[1..] else s;
    ParsesFrom(s, src);
    hide Run6, Finish, Continue;
    assert "" + src == src;
    f := AcceptsRest(Scan6([], None, src, 0, 0), "", src);
    TextIsRest(f);
    DenotesIsValue(f, a);
    FirstIsColon(f);
    hide RestText, RestValue, Denotes, FormText;
  }

  lemma FormIsRead(f: Form, a: seq<Byte>)
    requires IsForm(f) && Denotes(f, a)
    ensures Parse6(FormText(f)) == Some(a)
  {
    var src, s := RestText(f), FormText(f);
    TextIsRest(f);
    DenotesIsValue(f, a);
    HasText(f);
    FirstIsColon(f);
    hide Run6, Finish, Continue, RestText, RestValue, Denotes, FormText;
    ParsesFrom(s, src);
    ReadsRest(Scan6([], None, src, 0, 0), f);
  }
}
