/** The list of conversations of the logged-in user: messages are grouped by the pair of users, and the newest message
    of each group is shown. */
module Conversations {
  import opened Options

  type Id = string

  datatype Message = Message(id: string, senderId: Id, receiverId: Id, body: string, timestamp: real)

  /** A document of the message collection; any field may be missing or of another type. */
  datatype Document = Document(id: Option<string>, senderId: Option<Id>, receiverId: Option<Id>, body: Option<string>,
                               timestamp: Option<real>)
  {
    predicate IsMessage() {
      id.Some? && senderId.Some? && receiverId.Some? && body.Some? && timestamp.Some?
    }

    function ToMessage(): Message
      requires IsMessage()
    {
      Message(id.value, senderId.value, receiverId.value, body.value, timestamp.value)
    }
  }

  function Key(from: Id, to: Id): string {
    from + "-" + to
  }

  function Partner(m: Message, user: Id): Id {
    if m.senderId == user then m.receiverId else m.senderId
  }

  /** The messages that the user sent or received, in the order of the documents; without a user there are none. */
  function Own(docs: seq<Document>, user: Option<Id>): seq<Message> {
    if docs == [] then [] else
    var last := docs[|docs| - 1];
    var m := if last.IsMessage() && Involves(last.ToMessage(), user) then [last.ToMessage()] else [];
    Own(docs[..|docs| - 1], user) + m
  }

  predicate Involves(m: Message, user: Option<Id>) {
    Some(m.senderId) == user || Some(m.receiverId) == user
  }

  /** The complete documents whose sender or receiver is the user. */
  lemma {:induction false} OwnHas(docs: seq<Document>, user: Option<Id>, m: Message)
    ensures m in Own(docs, user) <==>
              && user.Some? && (m.senderId == user.value || m.receiverId == user.value)
              && Document(Some(m.id), Some(m.senderId), Some(m.receiverId), Some(m.body), Some(m.timestamp)) in docs
  {
    if docs != [] {
      var k := |docs| - 1;
      OwnHas(docs[..k], user, m);
      assert docs == docs[..k] + [docs[k]];
    }
  }

  /** Where the first message exchanged with a partner is. */
  function Met(own: seq<Message>, user: Id, p: Id): (i: nat)
    ensures i <= |own| && (i < |own| ==> Partner(own[i], user) == p)
    ensures forall j: nat :: j < i ==> Partner(own[j], user) != p
  {
    if own == [] || Partner(own[0], user) == p then 0 else 1 + Met(own[1..], user, p)
  }

  predicate Talked(own: seq<Message>, user: Id, p: Id) {
    Met(own, user, p) < |own|
  }

  /** The first message exchanged with a partner. */
  function First(own: seq<Message>, user: Id, p: Id): Message
    requires Talked(own, user, p)
  {
    own[Met(own, user, p)]
  }

  /** The key under which a group for the partner is made. */
  function FirstKey(own: seq<Message>, user: Id, p: Id): string
    requires Talked(own, user, p)
  {
    Key(First(own, user, p).senderId, First(own, user, p).receiverId)
  }

  /** Under one of the two orientations, messages exchanged with the partner are filed. */
  predicate IsKeyOf(k: string, user: Id, p: Id) {
    k == Key(user, p) || k == Key(p, user)
  }

  /** None of the partners met earlier has taken a key of this one. */
  ghost predicate Free(own: seq<Message>, user: Id, p: Id)
    requires Talked(own, user, p)
  {
    forall q :: Talked(own, user, q) && Met(own, user, q) < Met(own, user, p) ==>
      !IsKeyOf(FirstKey(own, user, q), user, p)
  }

  /** No partner's messages are filed under the key of a partner met before. */
  ghost predicate Separate(own: seq<Message>, user: Id) {
    forall p :: Talked(own, user, p) ==> Free(own, user, p)
  }

  /** The group starts with the first message exchanged with the partner, and has the key of that message. */
  ghost predicate Starts(groups: map<string, seq<Message>>, own: seq<Message>, user: Id, k: string, p: Id) {
    k in groups && Talked(own, user, p) && k == FirstKey(own, user, p) && groups[k] != [] &&
      groups[k][0] == First(own, user, p)
  }

  ghost predicate HasGroup(groups: map<string, seq<Message>>, own: seq<Message>, user: Id, p: Id)
    requires Talked(own, user, p)
  {
    Starts(groups, own, user, FirstKey(own, user, p), p)
  }

  /** The groups so far: each is started by one partner's first message, every partner's messages are filed
      somewhere. */
  ghost predicate Filed(groups: map<string, seq<Message>>, own: seq<Message>, user: Id) {
    && (forall k :: k in groups ==> exists p :: Starts(groups, own, user, k, p))
    && (forall p :: Talked(own, user, p) ==> Key(user, p) in groups || Key(p, user) in groups)
  }

  ghost predicate AllHaveGroups(groups: map<string, seq<Message>>, own: seq<Message>, user: Id) {
    forall p :: Talked(own, user, p) ==> HasGroup(groups, own, user, p)
  }

  /** Every partner has a group of its own exactly if no key was taken before. */
  ghost predicate Grouped(groups: map<string, seq<Message>>, own: seq<Message>, user: Id) {
    Filed(groups, own, user) && (AllHaveGroups(groups, own, user) <==> Separate(own, user))
  }

  lemma {:induction false} MetAfter(own: seq<Message>, user: Id, p: Id, m: Message)
    ensures Met(own + [m], user, p)
         == if Talked(own, user, p) then Met(own, user, p) else if Partner(m, user) == p then |own| else |own| + 1
    ensures Talked(own, user, p) ==> First(own + [m], user, p) == First(own, user, p)
    ensures Talked(own + [m], user, p) <==> Talked(own, user, p) || p == Partner(m, user)
  {
    if own != [] && Partner(own[0], user) != p {
      assert (own + [m])[1..] == own[1..] + [m];
      MetAfter(own[1..], user, p, m);
    }
  }

  /** What becomes of the groups when a message is added: to the group of its key, or of the reversed key, or to a new
      one. */
  function Added(groups: map<string, seq<Message>>, m: Message): map<string, seq<Message>> {
    var id1, id2 := Key(m.senderId, m.receiverId), Key(m.receiverId, m.senderId);
    if id1 in groups then groups[id1 := groups[id1] + [m]]
    else if id2 in groups then groups[id2 := groups[id2] + [m]]
    else groups[id1 := [m]]
  }

  /** The keys of a message are those of its partner. */
  lemma KeysOf(m: Message, user: Id)
    requires Involves(m, Some(user))
    ensures var p, id1, id2 := Partner(m, user), Key(m.senderId, m.receiverId), Key(m.receiverId, m.senderId);
            (id1 == Key(user, p) && id2 == Key(p, user)) || (id1 == Key(p, user) && id2 == Key(user, p))
  {
  }

  /** A partner whom the next message does not introduce. */
  ghost predicate Unmoved(own: seq<Message>, all: seq<Message>, user: Id, q: Id) {
    && (Talked(all, user, q) <==> Talked(own, user, q))
    && (Talked(own, user, q) ==> First(all, user, q) == First(own, user, q) && Met(all, user, q) == Met(own, user, q))
  }

  /** Groups keep their keys' first messages, and a new group belongs to the new message. */
  ghost predicate Extends(after: map<string, seq<Message>>, groups: map<string, seq<Message>>, m: Message) {
    && (forall k :: k in groups ==> k in after)
    && (forall k :: k in groups && groups[k] != [] ==> after[k] != [] && after[k][0] == groups[k][0])
    && (forall k :: k in after && k !in groups ==> after[k] == [m])
  }

  lemma StartsStays(groups: map<string, seq<Message>>, after: map<string, seq<Message>>, own: seq<Message>, user: Id,
                    m: Message, k: string, q: Id)
    requires Extends(after, groups, m) && Starts(groups, own, user, k, q)
    ensures Starts(after, own + [m], user, k, q)
  {
    MetAfter(own, user, q, m);
    hide Met, Key, Partner;
  }

  lemma HasGroupStays(groups: map<string, seq<Message>>, after: map<string, seq<Message>>, own: seq<Message>, user: Id,
                      m: Message, q: Id)
    requires Filed(groups, own, user) && Extends(after, groups, m) && Talked(own, user, q)
    requires Unmoved(own, own + [m], user, q) && (after.Keys == groups.Keys || Partner(m, user) != q)
    ensures HasGroup(after, own + [m], user, q) <==> HasGroup(groups, own, user, q)
  {
    hide Key, Partner, Separate, IsKeyOf;
    var k := FirstKey(own, user, q);
    if HasGroup(groups, own, user, q) {
      StartsStays(groups, after, own, user, m, k, q);
    } else if k in groups {
      var r :| Starts(groups, own, user, k, r);
    } else if k in after {
      assert First(own, user, q) != m;
    }
  }

  lemma FreeStays(own: seq<Message>, user: Id, m: Message, p: Id)
    requires Talked(own, user, p)
    ensures Talked(own + [m], user, p) && (Free(own + [m], user, p) <==> Free(own, user, p))
  {
    forall q ensures Unmoved(own, own + [m], user, q) || (!Talked(own, user, q) && Met(own + [m], user, q) >= |own|) {
      MetAfter(own, user, q, m);
    }
    assert Unmoved(own, own + [m], user, p);
    hide Key, Partner, Met, IsKeyOf;
    if Free(own, user, p) {
      forall q | Talked(own + [m], user, q) && Met(own + [m], user, q) < Met(own + [m], user, p)
        ensures !IsKeyOf(FirstKey(own + [m], user, q), user, p)
      {
        assert Unmoved(own, own + [m], user, q);
      }
    }
    if Free(own + [m], user, p) {
      forall q | Talked(own, user, q) && Met(own, user, q) < Met(own, user, p)
        ensures !IsKeyOf(FirstKey(own, user, q), user, p)
      {
        assert Unmoved(own, own + [m], user, q);
      }
    }
  }

  /** Whether the partner whom a message introduces is free, in terms of the groups. */
  lemma FreeNew(own: seq<Message>, user: Id, m: Message, p: Id)
    requires p == Partner(m, user) && !Talked(own, user, p)
    ensures Talked(own + [m], user, p) && FirstKey(own + [m], user, p) == Key(m.senderId, m.receiverId)
    ensures First(own + [m], user, p) == m
    ensures Free(own + [m], user, p) <==> forall q :: Talked(own, user, q) ==> !IsKeyOf(FirstKey(own, user, q), user, p)
  {
    var all := own + [m];
    forall q ensures (if q == p then Met(all, user, q) == |own| else Unmoved(own, all, user, q)) {
      MetAfter(own, user, q, m);
    }
    assert Met(all, user, p) == |own|;
    hide Key, Partner, Met, IsKeyOf;
    if Free(all, user, p) {
      forall q | Talked(own, user, q) ensures !IsKeyOf(FirstKey(own, user, q), user, p) {
        assert Unmoved(own, all, user, q);
      }
    } else {
      var q :| Talked(all, user, q) && Met(all, user, q) < Met(all, user, p) &&
        IsKeyOf(FirstKey(all, user, q), user, p);
      assert Unmoved(own, all, user, q);
    }
  }

  lemma SeparateOld(own: seq<Message>, user: Id, m: Message)
    requires Talked(own, user, Partner(m, user))
    ensures Separate(own + [m], user) <==> Separate(own, user)
  {
    forall p | Talked(own + [m], user, p) || Talked(own, user, p)
      ensures Talked(own, user, p) && Talked(own + [m], user, p) && (Free(own + [m], user, p) <==> Free(own, user, p))
    {
      MetAfter(own, user, p, m);
      FreeStays(own, user, m, p);
    }
    hide Talked, Free, Partner;
  }

  lemma SeparateNew(own: seq<Message>, user: Id, m: Message, p: Id)
    requires p == Partner(m, user) && !Talked(own, user, p)
    ensures Talked(own + [m], user, p)
    ensures Separate(own + [m], user) <==> Separate(own, user) && Free(own + [m], user, p)
  {
    FreeNew(own, user, m, p);
    forall q | Talked(own, user, q)
      ensures Talked(own + [m], user, q) && (Free(own + [m], user, q) <==> Free(own, user, q))
    {
      FreeStays(own, user, m, q);
    }
    forall q | Talked(own + [m], user, q) ensures Talked(own, user, q) || q == p {
      MetAfter(own, user, q, m);
    }
    hide Talked, Free, Partner;
  }

  lemma AddedExtends(groups: map<string, seq<Message>>, m: Message)
    ensures Extends(Added(groups, m), groups, m)
    ensures var id1, id2 := Key(m.senderId, m.receiverId), Key(m.receiverId, m.senderId);
            if id1 in groups || id2 in groups then Added(groups, m).Keys == groups.Keys
            else Added(groups, m).Keys == groups.Keys + {id1} && Added(groups, m)[id1] == [m]
  {
  }

  lemma NewStarts(groups: map<string, seq<Message>>, own: seq<Message>, user: Id, m: Message, k: string)
    requires Filed(groups, own, user) && Involves(m, Some(user)) && k in Added(groups, m) && k !in groups
    ensures Starts(Added(groups, m), own + [m], user, k, Partner(m, user))
  {
    AddedExtends(groups, m);
    KeysOf(m, user);
    hide Added, Key, Involves, Met;
    if !Talked(own, user, Partner(m, user)) {
      FreeNew(own, user, m, Partner(m, user));
    }
  }

  /** Every group is started by one partner, and every partner's messages are in some group, whatever comes next. */
  lemma AddedIsFiled(groups: map<string, seq<Message>>, own: seq<Message>, user: Id, m: Message)
    requires Filed(groups, own, user) && Involves(m, Some(user))
    ensures Filed(Added(groups, m), own + [m], user)
  {
    var all, after, p := own + [m], Added(groups, m), Partner(m, user);
    hide Added, Key, Partner, Involves, Met, Starts;
    AddedExtends(groups, m);
    KeysOf(m, user);
    MetAfter(own, user, p, m);
    forall k | k in after ensures exists q :: Starts(after, all, user, k, q) {
      if k in groups {
        var q :| Starts(groups, own, user, k, q);
        StartsStays(groups, after, own, user, m, k, q);
      } else {
        NewStarts(groups, own, user, m, k);
      }
    }
    forall q | Talked(all, user, q) ensures Key(user, q) in after || Key(q, user) in after {
      MetAfter(own, user, q, m);
    }
  }

  /** The partners all have groups exactly if they are separate; each message keeps that so. */
  lemma AddedOld(groups: map<string, seq<Message>>, own: seq<Message>, user: Id, m: Message)
    requires Filed(groups, own, user) && Involves(m, Some(user)) && Talked(own, user, Partner(m, user))
    ensures AllHaveGroups(Added(groups, m), own + [m], user) <==> AllHaveGroups(groups, own, user)
  {
    var all, after, p := own + [m], Added(groups, m), Partner(m, user);
    AddedExtends(groups, m);
    KeysOf(m, user);
    assert Key(user, p) in groups || Key(p, user) in groups;
    forall q | Talked(own, user, q) || Talked(all, user, q)
      ensures Talked(own, user, q) && Talked(all, user, q)
      ensures HasGroup(after, all, user, q) <==> HasGroup(groups, own, user, q)
    {
      MetAfter(own, user, q, m);
      HasGroupStays(groups, after, own, user, m, q);
    }
    hide Added, Key, Partner, Involves, Met, HasGroup, Talked;
  }

  lemma AddedNew(groups: map<string, seq<Message>>, own: seq<Message>, user: Id, m: Message, p: Id)
    requires Filed(groups, own, user) && Involves(m, Some(user)) && p == Partner(m, user) && !Talked(own, user, p)
    ensures AllHaveGroups(Added(groups, m), own + [m], user)
       <==> AllHaveGroups(groups, own, user) && Key(user, p) !in groups && Key(p, user) !in groups
  {
    var all, after := own + [m], Added(groups, m);
    NewHasGroup(groups, own, user, m, p);
    AddedExtends(groups, m);
    hide Added, Key, Involves;
    forall q | Talked(own, user, q)
      ensures Talked(all, user, q) && (HasGroup(after, all, user, q) <==> HasGroup(groups, own, user, q))
    {
      MetAfter(own, user, q, m);
      HasGroupStays(groups, after, own, user, m, q);
    }
    forall q | Talked(all, user, q) ensures Talked(own, user, q) || q == p {
      MetAfter(own, user, q, m);
    }
    hide Partner, Met, HasGroup, Talked;
  }

  lemma NewHasGroup(groups: map<string, seq<Message>>, own: seq<Message>, user: Id, m: Message, p: Id)
    requires Filed(groups, own, user) && Involves(m, Some(user)) && p == Partner(m, user) && !Talked(own, user, p)
    ensures Talked(own + [m], user, p)
    ensures HasGroup(Added(groups, m), own + [m], user, p) <==> Key(user, p) !in groups && Key(p, user) !in groups
  {
    AddedExtends(groups, m);
    KeysOf(m, user);
    FreeNew(own, user, m, p);
    hide Added, Key, Involves, Met, Talked;
    var k := Key(m.senderId, m.receiverId);
    if k in groups {
      var q :| Starts(groups, own, user, k, q);
      assert First(own, user, q) != m;
    }
  }

  /** The keys of a new partner are in use exactly if an earlier partner's group has one of them. */
  lemma FreeInGroups(groups: map<string, seq<Message>>, own: seq<Message>, user: Id, m: Message, p: Id)
    requires Filed(groups, own, user) && AllHaveGroups(groups, own, user) && p == Partner(m, user) &&
             !Talked(own, user, p)
    ensures Talked(own + [m], user, p)
    ensures Free(own + [m], user, p) <==> Key(user, p) !in groups && Key(p, user) !in groups
  {
    FreeNew(own, user, m, p);
    hide Met, Partner, Key, Free;
    if k :| k in groups && IsKeyOf(k, user, p) {
      var q :| Starts(groups, own, user, k, q);
    } else {
      forall q | Talked(own, user, q) ensures !IsKeyOf(FirstKey(own, user, q), user, p) {
        assert HasGroup(groups, own, user, q);
      }
    }
  }

  lemma AddedIsGrouped(groups: map<string, seq<Message>>, own: seq<Message>, user: Id, m: Message)
    requires Grouped(groups, own, user) && Involves(m, Some(user))
    ensures Grouped(Added(groups, m), own + [m], user)
  {
    var p := Partner(m, user);
    AddedIsFiled(groups, own, user, m);
    if Talked(own, user, p) {
      AddedOld(groups, own, user, m);
      SeparateOld(own, user, m);
    } else {
      AddedNew(groups, own, user, m, p);
      SeparateNew(own, user, m, p);
      if AllHaveGroups(groups, own, user) {
        FreeInGroups(groups, own, user, m, p);
      }
    }
    hide Added, AllHaveGroups, Separate, Filed, Talked, Partner, Involves, Free, Key;
  }

  /** Names without a dash keep the partners separate. */
  lemma DashFreeIsSeparate(own: seq<Message>, user: Id)
    requires '-' !in user && forall m :: m in own ==>
             Involves(m, Some(user)) && '-' !in m.senderId && '-' !in m.receiverId
    ensures Separate(own, user)
  {
    forall p, q | Talked(own, user, p) && Talked(own, user, q) && IsKeyOf(FirstKey(own, user, q), user, p)
      ensures p == q
    {
      var m, n := First(own, user, p), First(own, user, q);
      assert m in own && n in own;
      KeysOf(n, user);
      DashFreeMeet(user, q, p);
    }
  }

  function DashPosition(s: string): nat {
    if s == "" || s[0] == '-' then 0 else 1 + DashPosition(s[1..])
  }

  lemma {:induction false} DashAfter(a: Id, b: Id)
    requires '-' !in a
    ensures DashPosition(Key(a, b)) == |a|
  {
    if a != "" {
      assert Key(a, b)[1..] == Key(a[1..], b);
      DashAfter(a[1..], b);
    }
  }

  lemma DashIsAt(a: Id, b: Id, c: Id, d: Id)
    requires '-' !in a && '-' !in c && Key(a, b) == Key(c, d)
    ensures a == c && b == d
  {
    DashAfter(a, b);
    DashAfter(c, d);
    assert Key(a, b)[..|a|] == a && Key(c, d)[..|c|] == c;
    assert Key(a, b)[|a| + 1..] == b && Key(c, d)[|c| + 1..] == d;
  }

  /** With dashes in names, two conversations can share a key. */
  lemma DashFreeMeet(user: Id, q: Id, p: Id)
    requires '-' !in user && '-' !in q && '-' !in p
    ensures IsKeyOf(Key(user, q), user, p) || IsKeyOf(Key(q, user), user, p) ==> p == q
  {
    hide Key;
    forall a, b, c, d | '-' !in a && '-' !in c && Key(a, b) == Key(c, d) ensures a == c && b == d {
      DashIsAt(a, b, c, d);
    }
  }

  /** A conversation is lost: the second partner's messages are filed under the first one's key. */
  lemma ConversationIsLost(m: Message, n: Message)
    requires m.senderId == "a" && m.receiverId == "x-a" && n.senderId == "a-x" && n.receiverId == "a"
    ensures Talked([m, n], "a", "x-a") && Talked([m, n], "a", "a-x") && !Separate([m, n], "a")
    ensures Added(Added(map[], m), n) == map["a-x-a" := [m, n]]
  {
    var own := [m, n];
    assert Met(own, "a", "x-a") == 0;
    assert own[1..] == [n] && Met([n], "a", "a-x") == 0 && Met(own, "a", "a-x") == 1;
    assert Key("a", "x-a") == "a-x-a" && Key("a-x", "a") == "a-x-a";
    var one := map["a-x-a" := [m]];
    assert Added(map[], m) == one;
    assert [m] + [n] == [m, n];
    assert Added(one, n) == one["a-x-a" := [m, n]];
    assert FirstKey(own, "a", "x-a") == "a-x-a" && IsKeyOf("a-x-a", "a", "a-x");
    assert !Free(own, "a", "a-x");
  }

  /** Two partners may share a key and stay separate, as each group is made under another. */
  lemma SharedKeyIsNotEnough(m: Message, n: Message)
    requires m.senderId == "x-a" && m.receiverId == "a" && n.senderId == "a" && n.receiverId == "a-x"
    ensures Key("a", "x-a") == Key("a-x", "a")
    ensures Talked([m, n], "a", "x-a") && Talked([m, n], "a", "a-x") && Separate([m, n], "a")
  {
    var own := [m, n];
    assert Met(own, "a", "x-a") == 0;
    assert own[1..] == [n] && Met([n], "a", "a-x") == 0 && Met(own, "a", "a-x") == 1;
    assert FirstKey(own, "a", "x-a") == "x-a-a";
    assert Key("a", "a-x") == "a-a-x" && Key("a-x", "a") == "a-x-a";
    assert "x-a-a"[0] != 'a';
    forall p | Talked(own, "a", p) ensures p == "x-a" || p == "a-x" {
    }
  }

  ghost predicate Newer(s: seq<Message>) {
    forall i: nat, j: nat :: i < j < |s| ==> s[i].timestamp >= s[j].timestamp
  }

  ghost predicate OnePerPartner(s: seq<Message>, user: Id) {
    forall i: nat, j: nat :: i < j < |s| ==> Partner(s[i], user) != Partner(s[j], user)
  }

  /** Each listed message is the first exchanged with its partner, and no partner has two. */
  ghost predicate Firsts(messages: seq<Message>, own: seq<Message>, user: Id) {
    && OnePerPartner(messages, user)
    && (forall m :: m in messages ==> Talked(own, user, Partner(m, user)) && m == First(own, user, Partner(m, user)))
  }

  /** Moreover every partner has one. */
  ghost predicate Lists(messages: seq<Message>, own: seq<Message>, user: Id) {
    Firsts(messages, own, user) && forall p :: Talked(own, user, p) ==> First(own, user, p) in messages
  }

  /** Of the groups seen, each has its first message in the list, and the list has nothing else. */
  ghost predicate Started(messages: seq<Message>, groups: map<string, seq<Message>>, own: seq<Message>, user: Id,
                          seen: set<string>)
  {
    && seen <= groups.Keys && OnePerPartner(messages, user)
    && (forall m :: m in messages ==> exists k :: k in seen && IsStartOf(m, groups, own, user, k))
    && (forall k :: k in seen ==> groups[k] != [] && groups[k][0] in messages)
  }

  ghost predicate IsStartOf(m: Message, groups: map<string, seq<Message>>, own: seq<Message>, user: Id, k: string) {
    Starts(groups, own, user, k, Partner(m, user)) && m == groups[k][0]
  }

  lemma StartsWithNone(groups: map<string, seq<Message>>, own: seq<Message>, user: Id)
    ensures Started([], groups, own, user, {})
  {
  }

  lemma StartOf(groups: map<string, seq<Message>>, own: seq<Message>, user: Id, k: string)
    requires Grouped(groups, own, user) && k in groups
    ensures groups[k] != [] && IsStartOf(groups[k][0], groups, own, user, k)
  {
    hide Separate, AllHaveGroups, Met, Partner;
    var p :| Starts(groups, own, user, k, p);
    FirstIsOf(own, user, p);
  }

  lemma StartsNext(messages: seq<Message>, groups: map<string, seq<Message>>, own: seq<Message>, user: Id,
                   seen: set<string>,
                   k: string)
    requires Started(messages, groups, own, user, seen) && Grouped(groups, own, user) && k in groups && k !in seen
    ensures groups[k] != [] && Started(messages + [groups[k][0]], groups, own, user, seen + {k})
  {
    hide Grouped, Starts, IsStartOf, OnePerPartner;
    StartOf(groups, own, user, k);
    var m := groups[k][0];
    NotListed(messages, groups, own, user, seen, k, m);
    forall n | n in messages + [m] ensures exists j :: j in seen + {k} && IsStartOf(n, groups, own, user, j) {
      if n !in messages {
        assert k in seen + {k};
      }
    }
  }

  /** No message of that partner is in the list yet, as its group has the key of its first message. */
  lemma NotListed(messages: seq<Message>, groups: map<string, seq<Message>>, own: seq<Message>, user: Id,
                  seen: set<string>,
                  k: string, m: Message)
    requires Started(messages, groups, own, user, seen) && k !in seen && IsStartOf(m, groups, own, user, k)
    ensures OnePerPartner(messages + [m], user)
  {
    hide Key, Partner, First, Talked;
    forall i: nat | i < |messages| ensures Partner(messages[i], user) != Partner(m, user) {
      assert messages[i] in messages;
    }
  }

  lemma FirstIsOf(own: seq<Message>, user: Id, p: Id)
    requires Talked(own, user, p)
    ensures First(own, user, p) in own && Partner(First(own, user, p), user) == p
  {
  }

  lemma StartedAll(messages: seq<Message>, groups: map<string, seq<Message>>, own: seq<Message>, user: Id)
    requires Started(messages, groups, own, user, groups.Keys) && Grouped(groups, own, user)
    ensures Firsts(messages, own, user) && (Lists(messages, own, user) <==> Separate(own, user))
  {
    hide Key, Partner, Met, Separate, Filed, OnePerPartner;
    forall p | Talked(own, user, p) ensures First(own, user, p) in messages <==> HasGroup(groups, own, user, p) {
      FirstIsOf(own, user, p);
    }
  }

  /** Orders a list of messages of different partners, newest first. */
  method SortNewestFirst(messages: seq<Message>, ghost user: Id) returns (sorted: seq<Message>)
    requires OnePerPartner(messages, user)
    ensures OnePerPartner(sorted, user) && Newer(sorted) && forall m :: m in sorted <==> m in messages
  {
    hide Partner;
    sorted := [];
    var i := 0;
    while i < |messages|
      invariant i <= |messages| && OnePerPartner(sorted, user) && Newer(sorted)
      invariant forall m :: m in sorted <==> m in messages[..i]
    {
      var k := 0;
      while k < |sorted| && sorted[k].timestamp >= messages[i].timestamp
        invariant k <= |sorted| && forall j: nat :: j < k ==> sorted[j].timestamp >= messages[i].timestamp
      {
        k := k + 1;
      }
      InsertedKeeps(sorted, messages, user, i, k);
      sorted := sorted[..k] + [messages[i]] + sorted[k..];
      i := i + 1;
    }
    assert messages[..i] == messages;
  }

  lemma InsertedKeeps(sorted: seq<Message>, messages: seq<Message>, user: Id, i: nat, k: nat)
    requires i < |messages| && k <= |sorted| && OnePerPartner(messages, user) && OnePerPartner(sorted, user) &&
             Newer(sorted)
    requires forall m :: m in sorted <==> m in messages[..i]
    requires forall j: nat :: j < k ==> sorted[j].timestamp >= messages[i].timestamp
    requires k < |sorted| ==> sorted[k].timestamp < messages[i].timestamp
    ensures var r := sorted[..k] + [messages[i]] + sorted[k..];
            OnePerPartner(r, user) && Newer(r) && forall m :: m in r <==> m in messages[..i + 1]
  {
    hide Partner;
    forall j: nat | j < |sorted| ensures Partner(sorted[j], user) != Partner(messages[i], user) {
      assert sorted[j] in messages[..i];
    }
    assert messages[..i + 1] == messages[..i] + [messages[i]];
    InsertedContents(sorted, k, messages[i]);
    InsertedIsOnePerPartner(sorted, k, messages[i], user);
    InsertedIsNewer(sorted, k, messages[i]);
    hide OnePerPartner, Newer;
  }

  lemma InsertedContents<T>(s: seq<T>, k: nat, x: T)
    requires k <= |s|
    ensures forall y :: y in s[..k] + [x] + s[k..] <==> y in s || y == x
  {
    assert s == s[..k] + s[k..];
  }

  lemma InsertedIsOnePerPartner(s: seq<Message>, k: nat, x: Message, user: Id)
    requires k <= |s| && OnePerPartner(s, user) && forall j: nat :: j < |s| ==> Partner(s[j], user) != Partner(x, user)
    ensures OnePerPartner(s[..k] + [x] + s[k..], user)
  {
    hide Partner;
  }

  lemma InsertedIsNewer(s: seq<Message>, k: nat, x: Message)
    requires k <= |s| && Newer(s) && (forall j: nat :: j < k ==> s[j].timestamp >= x.timestamp)
    requires k < |s| ==> s[k].timestamp < x.timestamp
    ensures Newer(s[..k] + [x] + s[k..])
  {
  }

  lemma ListsOnePerPartner(messages: seq<Message>, own: seq<Message>, user: Id)
    requires Firsts(messages, own, user)
    ensures OnePerPartner(messages, user)
  {
  }

  lemma ReorderedLists(messages: seq<Message>, sorted: seq<Message>, own: seq<Message>, user: Id)
    requires Firsts(messages, own, user) && OnePerPartner(sorted, user) && forall m :: m in sorted <==> m in messages
    ensures Firsts(sorted, own, user) && (Lists(sorted, own, user) <==> Lists(messages, own, user))
  {
    hide Partner, Talked, First, OnePerPartner;
  }

  /** The order that the query asks for. */
  ghost predicate Descending(docs: seq<Document>) {
    forall i: nat, j: nat :: i < j < |docs| && docs[i].timestamp.Some? && docs[j].timestamp.Some? ==>
      docs[i].timestamp.value >= docs[j].timestamp.value
  }

  lemma {:induction false} OwnIsNewer(docs: seq<Document>, user: Option<Id>)
    requires Descending(docs)
    ensures Newer(Own(docs, user))
    ensures forall m :: m in Own(docs, user) ==> exists i: nat :: i < |docs| && docs[i].timestamp == Some(m.timestamp)
  {
    if docs != [] {
      var k := |docs| - 1;
      var init := docs[..k];
      OwnIsNewer(init, user);
      assert forall i: nat :: i < k ==> init[i] == docs[i];
      forall m | m in Own(docs, user) ensures exists i: nat :: i < |docs| && docs[i].timestamp == Some(m.timestamp) {
        if m in Own(init, user) {
          var i: nat :| i < |init| && init[i].timestamp == Some(m.timestamp);
          assert docs[i].timestamp == Some(m.timestamp);
        } else {
          assert docs[k].timestamp == Some(m.timestamp);
        }
      }
    }
  }

  /** No message exchanged with the partner of a listed one is newer. */
  ghost predicate AreNewest(messages: seq<Message>, own: seq<Message>, user: Id) {
    forall m, n :: m in messages && n in own && Partner(n, user) == Partner(m, user) ==> m.timestamp >= n.timestamp
  }

  lemma FirstsAreNewest(messages: seq<Message>, own: seq<Message>, user: Id)
    requires Firsts(messages, own, user) && Newer(own)
    ensures AreNewest(messages, own, user)
  {
    forall m, n | m in messages && n in own && Partner(n, user) == Partner(m, user) ensures m.timestamp >= n.timestamp {
      var i: nat :| i < |own| && own[i] == n;
      var k := Met(own, user, Partner(m, user));
      assert k <= i && m == own[k];
    }
  }

  class MessageList {
    const loggedInUserId: Option<Id>
    var messages: seq<Message>
    var groupedMessages: map<string, seq<Message>>

    constructor (user: Option<Id>)
      ensures loggedInUserId == user
    {
      loggedInUserId, messages, groupedMessages := user, [], map[];
    }

    ghost function User(): Id {
      if loggedInUserId.Some? then loggedInUserId.value else ""
    }

    /** The grouping loop. */
    method GroupMessages(docs: seq<Document>)
      modifies this`groupedMessages
      ensures Grouped(groupedMessages, Own(docs, loggedInUserId), User())
    {
      hide Grouped, Key, Own;
      groupedMessages := map[];
      StartsEmpty(docs, loggedInUserId, User());
      var i := 0;
      while i < |docs|
        invariant i <= |docs| && Grouped(groupedMessages, Own(docs[..i], loggedInUserId), User())
      {
        OwnGrows(docs, loggedInUserId, i);
        var doc := docs[i];
        if doc.IsMessage() {
          var m := doc.ToMessage();
          if Some(m.senderId) == loggedInUserId || Some(m.receiverId) == loggedInUserId {
            AddedIsGrouped(groupedMessages, Own(docs[..i], loggedInUserId), User(), m);
            KeyIs(m.senderId, m.receiverId);
            KeyIs(m.receiverId, m.senderId);
            var id1 := m.senderId + "-" + m.receiverId;
            var id2 := m.receiverId + "-" + m.senderId;
            if id1 in groupedMessages {
              groupedMessages := groupedMessages[id1 := groupedMessages[id1] + [m]];
            } else if id2 in groupedMessages {
              groupedMessages := groupedMessages[id2 := groupedMessages[id2] + [m]];
            } else {
              groupedMessages := groupedMessages[id1 := [m]];
            }
          }
        }
        i := i + 1;
      }
      assert docs[..i] == docs;
    }

    /** The second loop: the first message of each group, in any order of the groups. */
    method StartGroups(ghost own: seq<Message>)
      requires Grouped(groupedMessages, own, User())
      modifies this`messages
      ensures Firsts(messages, own, User()) && (Lists(messages, own, User()) <==> Separate(own, User()))
    {
      messages := [];
      ghost var groups, user := groupedMessages, User();
      hide *;
      StartsWithNone(groups, own, user);
      var keys := groupedMessages.Keys;
      assert groups.Keys - keys == {};
      while keys != {}
        invariant keys <= groups.Keys && Started(messages, groups, own, user, groups.Keys - keys)
        decreases keys
      {
        var k :| k in keys;
        var items := groupedMessages[k];
        StartsNext(messages, groups, own, user, groups.Keys - keys, k);
        assert groups.Keys - keys + {k} == groups.Keys - (keys - {k});
        if |items| > 0 {
          messages := messages + [items[0]];
        }
        keys := keys - {k};
      }
      assert groups.Keys - keys == groups.Keys;
      StartedAll(messages, groups, own, user);
    }

    /** The listener: first messages of different partners, newest first; every partner has one exactly if no partner's
        key was taken by another one met before. */
    method LoadMessages(docs: seq<Document>)
      modifies this
      ensures Firsts(messages, Own(docs, loggedInUserId), User()) && Newer(messages)
      ensures Lists(messages, Own(docs, loggedInUserId), User()) <==> Separate(Own(docs, loggedInUserId), User())
      ensures Descending(docs) ==> AreNewest(messages, Own(docs, loggedInUserId), User())
    {
      ghost var own := Own(docs, loggedInUserId);
      hide Own, Separate, Grouped, Firsts, Lists, AreNewest, Descending, Newer, OnePerPartner;
      GroupMessages(docs);
      StartGroups(own);
      ghost var unsorted := messages;
      ListsOnePerPartner(messages, own, User());
      messages := SortNewestFirst(messages, User());
      ReorderedLists(unsorted, messages, own, User());
      if Descending(docs) {
        OwnIsNewer(docs, loggedInUserId);
        FirstsAreNewest(messages, own, User());
      }
    }
  }

  lemma StartsEmpty(docs: seq<Document>, user: Option<Id>, u: Id)
    ensures Grouped(map[], Own(docs[..0], user), u)
  {
  }

  lemma KeyIs(from: Id, to: Id)
    ensures Key(from, to) == from + "-" + to
  {
  }

  lemma OwnGrows(docs: seq<Document>, user: Option<Id>, i: nat)
    requires i < |docs|
    ensures var own, doc := Own(docs[..i], user), docs[i];
            Own(docs[..i + 1], user) ==
            if doc.IsMessage() && Involves(doc.ToMessage(), user) then own + [doc.ToMessage()] else own
  {
    assert docs[..i + 1][..i] == docs[..i];
  }
}
