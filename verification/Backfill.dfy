/**
 The conversation backfill: the SQL statements of backend/app/shared/conversation_backfill.py over the
 tables of backend/app/models/messaging.py. One assignment per statement, as one statement sees one
 snapshot. The unread rule is `unread_summary` of backend/app/features/messages/service.py, for direct
 chats and undeleted messages.
 */
module Backfill {
  import opened Prelude

  type UserId = int
  type MatchId = int
  type ConvId = int
  type MessageId = int

  datatype Pairing = Pairing(a: UserId, b: UserId, createdAt: int)

  datatype Conv = Conv(dm: bool, matchId: Option<MatchId>, createdAt: int)

  /** `detail` stands for role, status and mute; the statement inserts plain active members. */
  datatype Detail = PlainActive | Other(code: int)

  datatype Row = Row(detail: Detail, joinedAt: int, lastRead: Option<MessageId>)

  datatype Message = Message(matchId: Option<MatchId>, conv: Option<ConvId>, sender: UserId, createdAt: int, read: bool)

  datatype Db = Db(
    matches: map<MatchId, Pairing>,
    convs: map<ConvId, Conv>,
    members: map<(ConvId, UserId), Row>,
    messages: map<MessageId, Message>)

  predicate For(db: Db, c: ConvId, m: MatchId) {
    c in db.convs && db.convs[c].matchId == Some(m)
  }

  /** Unique `match_id`, and references that resolve. */
  ghost predicate SchemaOk(db: Db) {
    (forall c, d | c in db.convs && d in db.convs && db.convs[c].matchId.Some? &&
                   db.convs[c].matchId == db.convs[d].matchId :: c == d) &&
    (forall c | c in db.convs && db.convs[c].matchId.Some? :: db.convs[c].matchId.value in db.matches) &&
    forall k | k in db.members :: k.0 in db.convs
  }

  predicate HasConv(db: Db, m: MatchId) {
    exists c :: c in db.convs && For(db, c, m)
  }

  /** The generated ids: one unused conversation id for each match that has none. */
  ghost predicate FreshIds(db: Db, ids: map<ConvId, MatchId>) {
    (forall c | c in ids :: c !in db.convs && ids[c] in db.matches && !HasConv(db, ids[c])) &&
    (forall c, d | c in ids && d in ids && ids[c] == ids[d] :: c == d) &&
    forall m | m in db.matches && !HasConv(db, m) :: exists c :: c in ids && ids[c] == m
  }

  // ----- the statements -----

  function WithConversations(db: Db, ids: map<ConvId, MatchId>): Db {
    db.(convs := db.convs + map c | c in ids && ids[c] in db.matches ::
      Conv(true, Some(ids[c]), db.matches[ids[c]].createdAt))
  }

  /** The VALUES rows of a conversation: the side says which user of the match. */
  function SideKey(db: Db, x: (ConvId, bool)): (ConvId, UserId)
    requires IsDm(db, x.0)
  {
    (x.0, if x.1 then Match(db, x.0).b else Match(db, x.0).a)
  }

  /** What the SELECT of the second statement returns. */
  function MissingSides(db: Db): set<(ConvId, bool)> {
    set c, side | c in db.convs && side in {false, true} && IsDm(db, c) && SideKey(db, (c, side)) !in db.members ::
      (c, side)
  }

  function KeysOf(db: Db, done: set<(ConvId, bool)>): set<(ConvId, UserId)> {
    set x | x in done && IsDm(db, x.0) :: SideKey(db, x)
  }

  /** The keys the second statement inserts. */
  function MissingMembers(db: Db): set<(ConvId, UserId)> {
    KeysOf(db, MissingSides(db))
  }

  predicate IsDm(db: Db, c: ConvId) {
    c in db.convs && db.convs[c].dm && db.convs[c].matchId.Some? && db.convs[c].matchId.value in db.matches
  }

  function Match(db: Db, c: ConvId): Pairing
    requires IsDm(db, c)
  {
    db.matches[db.convs[c].matchId.value]
  }

  /** A direct conversation of a match that pairs a user with itself, who is no member of it. */
  predicate MembersClash(db: Db) {
    exists c :: c in db.convs && IsDm(db, c) && Match(db, c).a == Match(db, c).b && (c, Match(db, c).a) !in db.members
  }

  /** The same on the tables before the first statement: a match of a user with itself that has no
      conversation yet, or whose direct conversation lacks the user. */
  predicate SelfMatchLeft(db: Db) {
    exists m :: m in db.matches && SelfMatchOpen(db, m)
  }

  predicate SelfMatchOpen(db: Db, m: MatchId)
    requires m in db.matches
  {
    db.matches[m].a == db.matches[m].b &&
    (!HasConv(db, m) ||
     exists c :: c in db.convs && For(db, c, m) && db.convs[c].dm && (c, db.matches[m].a) !in db.members)
  }

  function WithRows(db: Db, keys: set<(ConvId, UserId)>): map<(ConvId, UserId), Row> {
    db.members + map k | k in keys && IsDm(db, k.0) :: Row(PlainActive, Match(db, k.0).createdAt, None)
  }

  function WithMembers(db: Db): Db {
    db.(members := WithRows(db, MissingMembers(db)))
  }

  /** What `UPDATE messages ... FROM conversations` assigns to a message. */
  function Link(db: Db, msg: Message): Option<ConvId>
    requires SchemaOk(db)
  {
    if msg.conv == None && msg.matchId.Some? && HasConv(db, msg.matchId.value)
    then Some(var c :| c in db.convs && For(db, c, msg.matchId.value); c)
    else msg.conv
  }

  function WithLinks(db: Db): Db
    requires SchemaOk(db)
  {
    db.(messages := map x | x in db.messages :: db.messages[x].(conv := Link(db, db.messages[x])))
  }

  ghost function Backfilled(db: Db, ids: map<ConvId, MatchId>): Db
    requires SchemaOk(db) && FreshIds(db, ids)
  {
    ConversationsKeepSchema(db, ids);
    MembersKeepSchema(WithConversations(db, ids));
    WithLinks(WithMembers(WithConversations(db, ids)))
  }

  class Store {
    var matches: map<MatchId, Pairing>
    var convs: map<ConvId, Conv>
    var members: map<(ConvId, UserId), Row>
    var messages: map<MessageId, Message>

    ghost function Now(): Db
      reads this
    {
      Db(matches, convs, members, messages)
    }

    /** One row per match without a conversation. */
    method CreateDmConversations(ids: map<ConvId, MatchId>)
      requires FreshIds(Now(), ids)
      modifies this`convs
      ensures Now() == WithConversations(old(Now()), ids)
    {
      ghost var db := Now();
      var todo := ids.Keys;
      ghost var done: set<ConvId> := {};
      ConversationsOfNone(db, ids);
      while todo != {}
        invariant done !! todo && done + todo == ids.Keys
        invariant convs == ConversationsOf(db, ids, done)
        decreases todo
      {
        SomeElement(todo);
        var c :| c in todo;
        ConversationsOfNext(db, ids, done, c);
        convs := convs[c := Conv(true, Some(ids[c]), matches[ids[c]].createdAt)];
        todo, done := todo - {c}, done + {c};
      }
      assert done == ids.Keys;
      ConversationsOfAll(db, ids);
    }

    /** The SELECT sees the rows before the statement; each selected row is inserted under the unique
        key, and a row already there, even from this statement, undoes it all. */
    method CreateDmMembers() returns (ok: bool)
      modifies this`members
      ensures ok <==> !MembersClash(old(Now()))
      ensures Now() == if ok then WithMembers(old(Now())) else old(Now())
    {
      var db := Db(matches, convs, members, messages);
      var todo := MissingSides(db);
      ghost var done: set<(ConvId, bool)> := {};
      NoRows(db);
      while todo != {}
        invariant done !! todo && done + todo == MissingSides(db)
        invariant NoneTwice(db, done) && members == WithRows(db, KeysOf(db, done))
        invariant convs == db.convs && matches == db.matches && messages == db.messages
        decreases todo
      {
        var x :| x in todo;
        var k := SideKey(db, x);
        InsertOne(db, done, x);
        if k in members {
          members := db.members;
          return false;
        }
        members := members[k := Row(PlainActive, Match(db, x.0).createdAt, None)];
        todo, done := todo - {x}, done + {x};
      }
      assert done == MissingSides(db);
      ClashIsTwice(db);
      return true;
    }

    method LinkMessages()
      requires SchemaOk(Now())
      modifies this`messages
      ensures Now() == WithLinks(old(Now()))
    {
      var db := Db(matches, convs, members, messages);
      var todo := messages.Keys;
      while todo != {}
        invariant messages.Keys == db.messages.Keys && todo <= messages.Keys
        invariant forall x | x in db.messages ::
          messages[x] == if x in todo then db.messages[x] else db.messages[x].(conv := Link(db, db.messages[x]))
        decreases todo
      {
        SomeElement(todo);
        var x :| x in todo;
        var msg := messages[x];
        if msg.conv == None && msg.matchId.Some? && HasConv(db, msg.matchId.value) {
          var c :| c in db.convs && For(db, c, msg.matchId.value);
          messages := messages[x := msg.(conv := Some(c))];
        }
        todo := todo - {x};
      }
      forall x: MessageId | x in db.messages ensures messages[x] == WithLinks(db).messages[x] {}
      assert messages == WithLinks(db).messages;
    }

    /** All three statements in order; nothing is kept when the second one fails. */
    method RunBackfill(ids: map<ConvId, MatchId>) returns (ok: bool)
      requires SchemaOk(Now()) && FreshIds(Now(), ids)
      modifies this
      ensures ok <==> !SelfMatchLeft(old(Now()))
      ensures Now() == if ok then Backfilled(old(Now()), ids) else old(Now())
    {
      ghost var db := Now();
      var before := convs;
      ConversationsKeepSchema(db, ids);
      ClashIff(db, ids);
      CreateDmConversations(ids);
      ok := CreateDmMembers();
      if !ok {
        convs := before;
        return;
      }
      MembersKeepSchema(WithConversations(db, ids));
      LinkMessages();
    }
  }

  // ----- the statements, row by row -----

  function ConversationsOf(db: Db, ids: map<ConvId, MatchId>, done: set<ConvId>): map<ConvId, Conv> {
    db.convs + map c | c in done && c in ids && ids[c] in db.matches ::
      Conv(true, Some(ids[c]), db.matches[ids[c]].createdAt)
  }

  lemma ConversationsOfNone(db: Db, ids: map<ConvId, MatchId>)
    ensures ConversationsOf(db, ids, {}) == db.convs
  {
  }

  lemma ConversationsOfNext(db: Db, ids: map<ConvId, MatchId>, done: set<ConvId>, c: ConvId)
    requires c in ids && ids[c] in db.matches
    ensures ConversationsOf(db, ids, done + {c}) ==
            ConversationsOf(db, ids, done)[c := Conv(true, Some(ids[c]), db.matches[ids[c]].createdAt)]
  {
  }

  lemma ConversationsOfAll(db: Db, ids: map<ConvId, MatchId>)
    ensures db.(convs := ConversationsOf(db, ids, ids.Keys)) == WithConversations(db, ids)
  {
    assert ConversationsOf(db, ids, ids.Keys) == WithConversations(db, ids).convs;
  }

  /** No two of the selected rows have the same key. */
  ghost predicate NoneTwice(db: Db, done: set<(ConvId, bool)>) {
    forall x, y | x in done && y in done && IsDm(db, x.0) && IsDm(db, y.0) && SideKey(db, x) == SideKey(db, y) :: x == y
  }

  lemma NoRows(db: Db)
    ensures WithRows(db, KeysOf(db, {})) == db.members && NoneTwice(db, {})
  {
    assert KeysOf(db, {}) == {};
  }

  lemma InsertOne(db: Db, done: set<(ConvId, bool)>, x: (ConvId, bool))
    requires NoneTwice(db, done) && done <= MissingSides(db) && x in MissingSides(db) && x !in done
    ensures IsDm(db, x.0)
    ensures var k, rows := SideKey(db, x), WithRows(db, KeysOf(db, done));
            if k in rows then MembersClash(db)
            else NoneTwice(db, done + {x}) &&
                 WithRows(db, KeysOf(db, done + {x})) == rows[k := Row(PlainActive, Match(db, x.0).createdAt, None)]
  {
    var k := SideKey(db, x);
    KeysNext(db, done, x);
    RowsNext(db, KeysOf(db, done), k);
    hide IsDm, WithRows;
    if k in KeysOf(db, done) {
      var y :| y in done && IsDm(db, y.0) && SideKey(db, y) == k;
      SameKey(db, x, y);
    } else {
      forall y | y in done && IsDm(db, y.0) ensures SideKey(db, y) != k { assert SideKey(db, y) in KeysOf(db, done); }
    }
  }

  lemma SameKey(db: Db, x: (ConvId, bool), y: (ConvId, bool))
    requires x in MissingSides(db) && IsDm(db, y.0) && x != y && SideKey(db, x) == SideKey(db, y)
    ensures MembersClash(db)
  {
    assert y.0 == x.0 && y.1 != x.1;
  }

  lemma KeysNext(db: Db, done: set<(ConvId, bool)>, x: (ConvId, bool))
    requires x in MissingSides(db)
    ensures KeysOf(db, done + {x}) == KeysOf(db, done) + {SideKey(db, x)}
  {
  }

  lemma RowsNext(db: Db, keys: set<(ConvId, UserId)>, k: (ConvId, UserId))
    requires IsDm(db, k.0) && k !in db.members
    ensures WithRows(db, keys + {k}) == WithRows(db, keys)[k := Row(PlainActive, Match(db, k.0).createdAt, None)]
    ensures k in WithRows(db, keys) <==> k in keys
  {
  }

  /** A clash is two selected rows with one key, so inserting them all in any order runs into it. */
  lemma ClashIsTwice(db: Db)
    ensures MembersClash(db) ==> !NoneTwice(db, MissingSides(db))
  {
    if c :| c in db.convs && IsDm(db, c) && Match(db, c).a == Match(db, c).b && (c, Match(db, c).a) !in db.members {
      var x, y := (c, false), (c, true);
      assert x in MissingSides(db) && y in MissingSides(db) && SideKey(db, x) == SideKey(db, y) && x != y;
    }
  }

  /** The second statement fails exactly when the tables the job starts from have an open self-match. */
  lemma ClashIff(db: Db, ids: map<ConvId, MatchId>)
    requires SchemaOk(db) && FreshIds(db, ids)
    ensures MembersClash(WithConversations(db, ids)) <==> SelfMatchLeft(db)
  {
    var d := WithConversations(db, ids);
    if c :| c in d.convs && IsDm(d, c) && Match(d, c).a == Match(d, c).b && (c, Match(d, c).a) !in d.members {
      var m := d.convs[c].matchId.value;
      if c !in ids { assert For(db, c, m); }
      assert SelfMatchOpen(db, m);
    }
    if m :| m in db.matches && SelfMatchOpen(db, m) {
      var c: ConvId;
      if HasConv(db, m) {
        c :| c in db.convs && For(db, c, m) && db.convs[c].dm && (c, db.matches[m].a) !in db.members;
      } else {
        c :| c in ids && ids[c] == m;
        assert (c, db.matches[m].a) !in db.members;
      }
      assert IsDm(d, c) && Match(d, c) == db.matches[m];
    }
  }

  /** The input: one match of a user with itself. */
  lemma SelfMatchFails() returns (db: Db, ids: map<ConvId, MatchId>)
    ensures SchemaOk(db) && FreshIds(db, ids) && |db.matches| == 1 && MembersClash(WithConversations(db, ids))
  {
    db := Db(map[5 := Pairing(1, 1, 0)], map[], map[], map[]);
    ids := map[9 := 5];
    assert ids[9] == 5;
    assert SelfMatchOpen(db, 5);
    ClashIff(db, ids);
  }

  lemma MissingIs(db: Db, k: (ConvId, UserId))
    ensures k in MissingMembers(db) <==>
              IsDm(db, k.0) && k.1 in {Match(db, k.0).a, Match(db, k.0).b} && k !in db.members
  {
    if IsDm(db, k.0) && k.1 in {Match(db, k.0).a, Match(db, k.0).b} && k !in db.members {
      var x := (k.0, k.1 != Match(db, k.0).a);
      assert SideKey(db, x) == k;
      assert x in MissingSides(db);
    }
  }

  // ----- complete -----

  lemma ConversationsKeepSchema(db: Db, ids: map<ConvId, MatchId>)
    requires SchemaOk(db) && FreshIds(db, ids)
    ensures SchemaOk(WithConversations(db, ids))
    ensures forall m: MatchId | m in db.matches :: HasConv(WithConversations(db, ids), m)
  {
    var d := WithConversations(db, ids);
    forall c, m | For(d, c, m)
      ensures m in db.matches && (if c in ids then ids[c] == m && !HasConv(db, m) else For(db, c, m) && HasConv(db, m))
    {
      if c !in ids { assert For(db, c, m); }
    }
    forall m: MatchId | m in db.matches ensures HasConv(d, m) {
      if HasConv(db, m) {
        var c :| c in db.convs && For(db, c, m);
        assert For(d, c, m);
      } else {
        var c :| c in ids && ids[c] == m;
        assert For(d, c, m);
      }
    }
  }

  lemma MembersKeepSchema(db: Db)
    requires SchemaOk(db)
    ensures SchemaOk(WithMembers(db))
  {
    var d := WithMembers(db);
    assert forall c, m :: For(d, c, m) <==> For(db, c, m);
  }

  /** Every match ends with exactly one conversation, every direct one with both users as members,
      and every message of a match with a conversation; nothing that existed is altered. */
  lemma BackfillIsComplete(db: Db, ids: map<ConvId, MatchId>)
    requires SchemaOk(db) && FreshIds(db, ids)
    ensures var e := Backfilled(db, ids);
            SchemaOk(e) &&
            (forall m: MatchId | m in db.matches :: exists c :: c in e.convs && e.convs[c].matchId == Some(m)) &&
            (forall c | c in e.convs && e.convs[c].dm && e.convs[c].matchId.Some? ::
               e.convs[c].matchId.value in db.matches &&
               var m := db.matches[e.convs[c].matchId.value]; (c, m.a) in e.members && (c, m.b) in e.members) &&
            forall x | x in db.messages && db.messages[x].conv == None && db.messages[x].matchId.Some? &&
                       db.messages[x].matchId.value in db.matches ::
              x in e.messages && e.messages[x].conv.Some? && e.messages[x].conv.value in e.convs &&
                e.convs[e.messages[x].conv.value].matchId == db.messages[x].matchId
  {
    var d1 := WithConversations(db, ids);
    ConversationsKeepSchema(db, ids);
    MembersKeepSchema(d1);
    var d2 := WithMembers(d1);
    var e := Backfilled(db, ids);
    assert forall c, m :: For(e, c, m) <==> For(d1, c, m);
    assert forall c, m :: For(d2, c, m) <==> For(d1, c, m);
    forall m: MatchId ensures HasConv(e, m) <==> HasConv(d1, m) {
      if HasConv(d1, m) { var c :| c in d1.convs && For(d1, c, m); assert For(e, c, m); }
    }
    forall m: MatchId ensures HasConv(d2, m) <==> HasConv(d1, m) {
      if HasConv(d1, m) { var c :| c in d1.convs && For(d1, c, m); assert For(d2, c, m); }
    }
    MembersComplete(d1);
    assert forall c | c in e.convs && e.convs[c].dm && e.convs[c].matchId.Some? :: IsDm(e, c) && IsDm(d1, c);
    forall m: MatchId | m in db.matches ensures exists c :: c in e.convs && e.convs[c].matchId == Some(m) {
      var c :| c in e.convs && For(e, c, m);
    }
  }

  lemma MembersComplete(db: Db)
    ensures var e := WithMembers(db);
            forall c | c in db.convs && IsDm(db, c) ::
              (c, Match(db, c).a) in e.members && (c, Match(db, c).b) in e.members
  {
    var e := WithMembers(db);
    forall c | c in db.convs && IsDm(db, c)
      ensures (c, Match(db, c).a) in e.members && (c, Match(db, c).b) in e.members
    {
      MissingIs(db, (c, Match(db, c).a));
      MissingIs(db, (c, Match(db, c).b));
    }
  }

  /** Rows that existed keep all their columns, except the link of an unlinked message, which may be set to the
      conversation of its match; every new row is a direct conversation of a match, as old as the match, or a plain
      active membership of one of its users, of the same age. */
  lemma BackfillOnlyAdds(db: Db, ids: map<ConvId, MatchId>)
    requires SchemaOk(db) && FreshIds(db, ids)
    ensures var e := Backfilled(db, ids);
            e.matches == db.matches && e.messages.Keys == db.messages.Keys &&
            (forall c | c in db.convs :: c in e.convs && e.convs[c] == db.convs[c]) &&
            e.convs.Keys == db.convs.Keys + ids.Keys &&
            (forall c | c in ids :: e.convs[c] == Conv(true, Some(ids[c]), db.matches[ids[c]].createdAt)) &&
            (forall k | k in db.members :: k in e.members && e.members[k] == db.members[k]) &&
            (forall k | k in e.members && k !in db.members ::
               k.0 in e.convs && e.convs[k.0].dm && e.convs[k.0].matchId.Some? &&
               e.convs[k.0].matchId.value in db.matches &&
               var m := db.matches[e.convs[k.0].matchId.value];
               k.1 in {m.a, m.b} && e.members[k] == Row(PlainActive, m.createdAt, None)) &&
            forall x | x in db.messages ::
              e.messages[x].(conv := db.messages[x].conv) == db.messages[x] &&
              (e.messages[x].conv != db.messages[x].conv ==>
                db.messages[x].conv == None && e.messages[x].conv.value in e.convs &&
                db.messages[x].matchId.Some? && e.convs[e.messages[x].conv.value].matchId == db.messages[x].matchId)
  {
    var d1 := WithConversations(db, ids);
    ConversationsKeepSchema(db, ids);
    MembersKeepSchema(d1);
    ConversationsAdded(db, ids);
    MembersAdded(d1);
    LinkedToItsMatch(WithMembers(d1));
    hide WithConversations, WithMembers, WithLinks, SchemaOk;
  }

  lemma ConversationsAdded(db: Db, ids: map<ConvId, MatchId>)
    requires SchemaOk(db) && FreshIds(db, ids)
    ensures var e := WithConversations(db, ids);
            e == db.(convs := e.convs) && e.convs.Keys == db.convs.Keys + ids.Keys &&
            (forall c | c in db.convs :: e.convs[c] == db.convs[c]) &&
            forall c | c in ids :: e.convs[c] == Conv(true, Some(ids[c]), db.matches[ids[c]].createdAt)
  {
    forall c: ConvId ensures c in WithConversations(db, ids).convs.Keys <==> c in db.convs.Keys + ids.Keys {}
  }

  lemma MembersAdded(db: Db)
    ensures var e := WithMembers(db);
            e == db.(members := e.members) &&
            (forall k | k in db.members :: k in e.members && e.members[k] == db.members[k]) &&
            forall k | k in e.members && k !in db.members ::
              k.0 in db.convs && db.convs[k.0].dm && db.convs[k.0].matchId.Some? &&
              db.convs[k.0].matchId.value in db.matches &&
              var m := db.matches[db.convs[k.0].matchId.value];
              k.1 in {m.a, m.b} && e.members[k] == Row(PlainActive, m.createdAt, None)
  {
    forall k | k in WithMembers(db).members && k !in db.members ensures k in MissingMembers(db) { MissingIs(db, k); }
    forall k | k in MissingMembers(db) ensures IsDm(db, k.0) && k.1 in {Match(db, k.0).a, Match(db, k.0).b} {
      MissingIs(db, k);
    }
    hide MissingMembers;
  }

  lemma LinkedToItsMatch(db: Db)
    requires SchemaOk(db)
    ensures WithLinks(db) == db.(messages := WithLinks(db).messages)
    ensures WithLinks(db).messages.Keys == db.messages.Keys
    ensures forall x | x in db.messages ::
              var was, now := db.messages[x], WithLinks(db).messages[x];
              now.(conv := was.conv) == was &&
              (now.conv != was.conv ==>
                was.conv == None && now.conv.value in db.convs && was.matchId.Some? &&
                db.convs[now.conv.value].matchId == was.matchId)
  {
  }

  // ----- idempotent -----

  /** Running the statements again finds nothing to do. */
  lemma BackfillIsIdempotent(db: Db, ids: map<ConvId, MatchId>, again: map<ConvId, MatchId>)
    requires SchemaOk(db) && FreshIds(db, ids)
    requires SchemaOk(Backfilled(db, ids)) && FreshIds(Backfilled(db, ids), again)
    ensures again == map[] && !MembersClash(WithConversations(Backfilled(db, ids), again))
    ensures Backfilled(Backfilled(db, ids), again) == Backfilled(db, ids)
  {
    var e := Backfilled(db, ids);
    assert e.matches == db.matches;
    hide SchemaOk, FreshIds, HasConv, WithLinks, WithConversations, WithMembers, MembersClash, IsDm;
    BackfillIsComplete(db, ids);
    ConversationsKeepSchema(db, ids);
    MembersKeepSchema(WithConversations(db, ids));
    LinksAreStable(WithMembers(WithConversations(db, ids)));
    NothingMissing(e);
    NothingToCreate(e, again);
  }

  lemma NothingToCreate(e: Db, again: map<ConvId, MatchId>)
    requires FreshIds(e, again) && forall m: MatchId | m in e.matches :: HasConv(e, m)
    ensures again == map[] && WithConversations(e, again) == e
  {
    assert forall c :: c !in again.Keys;
    assert WithConversations(e, again).convs == e.convs;
  }

  lemma NothingMissing(e: Db)
    requires forall c | c in e.convs && IsDm(e, c) :: (c, Match(e, c).a) in e.members && (c, Match(e, c).b) in e.members
    ensures WithMembers(e) == e && !MembersClash(e)
  {
  }

  /** Linking twice is linking once. */
  lemma LinksAreStable(db: Db)
    requires SchemaOk(db)
    ensures SchemaOk(WithLinks(db)) && WithLinks(WithLinks(db)) == WithLinks(db)
  {
    var e := WithLinks(db);
    assert forall c, m :: For(e, c, m) <==> For(db, c, m);
    forall x | x in e.messages ensures Link(e, e.messages[x]) == e.messages[x].conv {
      var msg := db.messages[x];
      if msg.conv == None && msg.matchId.Some? && HasConv(e, msg.matchId.value) {
        var c :| c in e.convs && For(e, c, msg.matchId.value);
        assert For(db, c, msg.matchId.value);
        assert HasConv(db, msg.matchId.value);
      }
    }
    hide SchemaOk, HasConv, Link;
    assert WithLinks(e).messages == e.messages;
  }

  // ----- the read boundary -----

  /** Keyset order: creation time, then id. */
  predicate AtOrBefore(db: Db, x: MessageId, y: MessageId)
    requires x in db.messages && y in db.messages
  {
    db.messages[x].createdAt < db.messages[y].createdAt ||
    (db.messages[x].createdAt == db.messages[y].createdAt && x <= y)
  }

  /** Messages a member received in the conversation. */
  function Received(db: Db, k: (ConvId, UserId)): set<MessageId> {
    set x | x in db.messages && db.messages[x].conv == Some(k.0) && db.messages[x].sender != k.1
  }

  function ReadBy(db: Db, k: (ConvId, UserId)): set<MessageId> {
    set x | x in Received(db, k) && x in db.messages && db.messages[x].read
  }

  predicate IsLatest(db: Db, s: set<MessageId>, x: MessageId) {
    x in s && x in db.messages && forall y | y in s && y in db.messages :: AtOrBefore(db, y, x)
  }

  lemma {:induction false} LatestExists(db: Db, s: set<MessageId>)
    requires s != {} && s <= db.messages.Keys
    ensures exists x :: IsLatest(db, s, x)
  {
    SomeElement(s);
    var x :| x in s;
    if s == {x} {
      assert IsLatest(db, s, x);
    } else {
      LatestExists(db, s - {x});
      var y :| IsLatest(db, s - {x}, y);
      if AtOrBefore(db, x, y) {
        assert IsLatest(db, s, y);
      } else {
        forall z | z in s ensures AtOrBefore(db, z, x) { assert z == x || z in s - {x}; }
        assert IsLatest(db, s, x);
      }
    }
  }

  /** The statement's effect on one row: only an unset boundary moves, to the newest message read. */
  ghost predicate BoundarySet(db: Db, k: (ConvId, UserId), row: Row)
    requires k in db.members
  {
    row == db.members[k].(lastRead := row.lastRead) &&
    if db.members[k].lastRead.Some? || ReadBy(db, k) == {} then row == db.members[k]
    else row.lastRead.Some? && IsLatest(db, ReadBy(db, k), row.lastRead.value)
  }

  ghost predicate Bounded(db: Db, e: Db) {
    e == db.(members := e.members) && e.members.Keys == db.members.Keys &&
    forall k | k in db.members :: BoundarySet(db, k, e.members[k])
  }

  /** A boundary that is set stays. One that is not is set if the member received and read something, and then to the
      latest such message. */
  lemma BoundaryIsLatestRead(db: Db, e: Db, k: (ConvId, UserId))
    requires Bounded(db, e) && k in db.members
    ensures var got := (x: Message) => x.conv == Some(k.0) && x.sender != k.1 && x.read;
            var row := e.members[k];
            row == db.members[k].(lastRead := row.lastRead) &&
            (db.members[k].lastRead.Some? ==> row == db.members[k]) &&
            (db.members[k].lastRead == None ==>
              (row.lastRead == None <==> forall x | x in db.messages :: !got(db.messages[x])) &&
              (row.lastRead.Some? ==>
                var y := row.lastRead.value;
                y in db.messages && got(db.messages[y]) &&
                forall x | x in db.messages && got(db.messages[x]) ::
                  var s, t := db.messages[x].createdAt, db.messages[y].createdAt; s < t || (s == t && x <= y)))
  {
    assert BoundarySet(db, k, e.members[k]);
    var got := (x: Message) => x.conv == Some(k.0) && x.sender != k.1 && x.read;
    assert forall x | x in db.messages :: x in ReadBy(db, k) <==> got(db.messages[x]);
  }

  /** Unread by boundary, as the unread summary counts direct chats. */
  function UnreadByBoundary(db: Db, k: (ConvId, UserId)): set<MessageId>
    requires k in db.members
  {
    set x | x in Received(db, k) && x in db.messages &&
            match db.members[k].lastRead
            case None => true
            case Some(y) => y in db.messages && !AtOrBefore(db, x, y)
  }

  /** Unread as it was before: received, and never stamped `read_at`. */
  function UnreadByStamp(db: Db, k: (ConvId, UserId)): set<MessageId> {
    set x | x in Received(db, k) && x in db.messages && !db.messages[x].read
  }

  ghost predicate ReadsFormPrefix(db: Db, k: (ConvId, UserId)) {
    forall x, y | x in Received(db, k) && y in ReadBy(db, k) && AtOrBefore(db, x, y) :: x in ReadBy(db, k)
  }

  /** No message that was read comes back as unread. */
  lemma ReadStaysRead(db: Db, e: Db, k: (ConvId, UserId))
    requires Bounded(db, e) && k in db.members && db.members[k].lastRead == None
    ensures UnreadByBoundary(e, k) <= UnreadByStamp(db, k)
  {
    assert BoundarySet(db, k, e.members[k]);
    assert Received(e, k) == Received(db, k);
    forall x | x in UnreadByBoundary(e, k) ensures x in UnreadByStamp(db, k) {
      assert db.messages[x].read <==> x in ReadBy(db, k);
    }
  }

  /** The unread set survives the change of representation exactly when the reads of the member
      form a prefix of what they received. */
  lemma UnreadPreservedIff(db: Db, e: Db, k: (ConvId, UserId))
    requires Bounded(db, e) && k in db.members && db.members[k].lastRead == None
    ensures UnreadByBoundary(e, k) == UnreadByStamp(db, k) <==> ReadsFormPrefix(db, k)
  {
    assert BoundarySet(db, k, e.members[k]);
    assert Received(e, k) == Received(db, k);
    ReadStaysRead(db, e, k);
    if ReadBy(db, k) == {} {
      assert UnreadByStamp(db, k) == UnreadByBoundary(e, k) by {
        forall x | x in UnreadByStamp(db, k) ensures x in UnreadByBoundary(e, k) {}
      }
    } else {
      var last := e.members[k].lastRead.value;
      if ReadsFormPrefix(db, k) {
        forall x | x in UnreadByStamp(db, k) ensures x in UnreadByBoundary(e, k) {
          assert x !in ReadBy(db, k) && last in ReadBy(db, k);
        }
      }
      if UnreadByBoundary(e, k) == UnreadByStamp(db, k) {
        forall x, y | x in Received(db, k) && y in ReadBy(db, k) && AtOrBefore(db, x, y) ensures x in ReadBy(db, k) {
          assert AtOrBefore(db, y, last);
          assert AtOrBefore(db, x, last);
          assert x !in UnreadByBoundary(e, k);
        }
      }
    }
  }

  class BoundaryStore {
    var db: Db

    /** The boundary statement, row by row of the member table. */
    method BackfillReadBoundary()
      modifies this
      ensures Bounded(old(db), db)
    {
      var rows: map<(ConvId, UserId), Row> := db.members;
      var todo := db.members.Keys;
      while todo != {}
        invariant todo <= db.members.Keys && rows.Keys == db.members.Keys && db == old(db)
        invariant forall k | k in db.members && k in todo :: rows[k] == db.members[k]
        invariant forall k | k in db.members && k !in todo :: BoundarySet(db, k, rows[k])
      {
        var k :| k in todo;
        var read := ReadBy(db, k);
        if read != {} && db.members[k].lastRead == None {
          LatestExists(db, read);
          var last :| last in read && IsLatest(db, read, last);
          rows := rows[k := rows[k].(lastRead := Some(last))];
        }
        todo := todo - {k};
      }
      db := db.(members := rows);
    }
  }
}
