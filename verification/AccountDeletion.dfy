/**
 Account deletion: the group steps of backend/app/features/account/service.py, with the foreign-key
 cascades of backend/app/models/groups.py and backend/app/models/messaging.py. The session does not
 flush before a query (backend/app/database.py:77), so new owners and roles reach the database in the
 one commit at the end: a state inside the deletion is the session's view, with its pending changes.
 */
module AccountDeletion {
  import opened Prelude

  type UserId = int
  type ConvId = int
  type GroupId = int
  type MessageId = int

  datatype Role = Owner | Admin | Member

  datatype Status = Invited | Requested | Active | Removed | Banned

  datatype Row = Row(role: Role, status: Status, joinedAt: int)

  datatype Kind = Dm | StaffDm | GroupChat

  datatype Group = Group(owner: UserId, conv: ConvId)

  datatype Message = Message(conv: ConvId, sender: UserId, body: string)

  /** The tables the group steps touch. A member row is keyed by (conversation, user). */
  datatype Db = Db(
    groups: map<GroupId, Group>,
    convs: map<ConvId, Kind>,
    members: map<(ConvId, UserId), Row>,
    messages: map<MessageId, Message>)

  /** What the schema enforces: one group per conversation, and group references that resolve. */
  ghost predicate SchemaOk(db: Db) {
    (forall g | g in db.groups :: db.groups[g].conv in db.convs) &&
    forall g, h | g in db.groups && h in db.groups && db.groups[g].conv == db.groups[h].conv :: g == h
  }

  ghost predicate OwnerOk(db: Db, g: GroupId)
    requires g in db.groups
  {
    var Group(owner, c) := db.groups[g];
    c in db.convs && db.convs[c] == GroupChat &&
    (c, owner) in db.members && db.members[(c, owner)].status == Active && db.members[(c, owner)].role == Owner &&
    forall u | (c, u) in db.members && db.members[(c, u)].role == Owner :: u == owner
  }

  /** Every group's owner is an active member, and the only one with the owner role. */
  ghost predicate GroupsOk(db: Db) {
    SchemaOk(db) && forall g | g in db.groups :: OwnerOk(db, g)
  }

  // ----- choosing a successor -----

  function Candidates(members: map<(ConvId, UserId), Row>, c: ConvId, leaver: UserId): set<UserId> {
    set k | k in members && k.0 == c && k.1 != leaver && members[k].status == Active :: k.1
  }

  /** The query's order: admins first, then the earliest joiner. */
  predicate NotAfter(a: Row, b: Row) {
    if a.role == Admin && b.role != Admin then true
    else if a.role != Admin && b.role == Admin then false
    else a.joinedAt <= b.joinedAt
  }

  /** `u` may be the first row of the ordered query; rows that tie come in any order. */
  predicate IsSuccessor(members: map<(ConvId, UserId), Row>, c: ConvId, leaver: UserId, u: UserId) {
    u in Candidates(members, c, leaver) &&
    forall v | v in Candidates(members, c, leaver) :: NotAfter(members[(c, u)], members[(c, v)])
  }

  lemma {:induction false} FirstExists(members: map<(ConvId, UserId), Row>, c: ConvId, us: set<UserId>)
    returns (u: UserId)
    requires us != {} && forall v | v in us :: (c, v) in members
    ensures u in us && forall v | v in us :: NotAfter(members[(c, u)], members[(c, v)])
  {
    SomeElement(us);
    u :| u in us;
    if us != {u} {
      var w := FirstExists(members, c, us - {u});
      if NotAfter(members[(c, w)], members[(c, u)]) { u := w; }
    }
  }

  // ----- the declarative result -----

  function Owned(db: Db, user: UserId): set<GroupId> {
    set g | g in db.groups && db.groups[g].owner == user
  }

  /** `pick` names a successor for exactly those groups of `todo` that have one. */
  ghost predicate Choices(db: Db, todo: set<GroupId>, user: UserId, pick: map<GroupId, UserId>) {
    pick.Keys <= todo && todo <= db.groups.Keys &&
    forall g | g in todo ::
      var c := db.groups[g].conv;
      if Candidates(db.members, c, user) == {} then g !in pick
      else g in pick && IsSuccessor(db.members, c, user, pick[g])
  }

  function DeadConvs(db: Db, todo: set<GroupId>, pick: map<GroupId, UserId>): set<ConvId> {
    set g | g in todo && g in db.groups && g !in pick :: db.groups[g].conv
  }

  predicate Promoted(db: Db, pick: map<GroupId, UserId>, k: (ConvId, UserId)) {
    exists g :: g in pick && g in db.groups && db.groups[g].conv == k.0 && pick[g] == k.1
  }

  function SettledGroups(db: Db, todo: set<GroupId>, pick: map<GroupId, UserId>): map<GroupId, Group> {
    map g | g in db.groups && !(g in todo && g !in pick) ::
      if g in pick then db.groups[g].(owner := pick[g]) else db.groups[g]
  }

  function SettledMembers(db: Db, dead: set<ConvId>, pick: map<GroupId, UserId>): map<(ConvId, UserId), Row> {
    map k | k in db.members && k.0 !in dead ::
      if Promoted(db, pick, k) then db.members[k].(role := Owner) else db.members[k]
  }

  function SettledMessages(db: Db, dead: set<ConvId>): map<MessageId, Message> {
    map m | m in db.messages && db.messages[m].conv !in dead :: db.messages[m]
  }

  /** The groups of `todo` handed over as `pick` says; the rest of them gone with their chats. */
  function Settled(db: Db, todo: set<GroupId>, pick: map<GroupId, UserId>): Db {
    var dead := DeadConvs(db, todo, pick);
    Db(SettledGroups(db, todo, pick), db.convs - dead, SettledMembers(db, dead, pick), SettledMessages(db, dead))
  }

  /** Leaving every group chat; other conversations keep the membership. */
  function Left(db: Db, user: UserId): Db {
    db.(members := map k | k in db.members && !(k.1 == user && k.0 in db.convs && db.convs[k.0] == GroupChat) ::
      db.members[k])
  }

  // ----- the loop -----

  /** `DELETE FROM conversations` and its cascades. */
  function DropConv(d: Db, c: ConvId): Db {
    Db(map g | g in d.groups && d.groups[g].conv != c :: d.groups[g],
       d.convs - {c},
       map k | k in d.members && k.0 != c :: d.members[k],
       map m | m in d.messages && d.messages[m].conv != c :: d.messages[m])
  }

  lemma DeadConvsDropped(db: Db, todo: set<GroupId>, pick: map<GroupId, UserId>, g: GroupId)
    requires g in db.groups && g !in todo && pick.Keys <= todo
    ensures DeadConvs(db, todo + {g}, pick) == DeadConvs(db, todo, pick) + {db.groups[g].conv}
  {
  }

  lemma DeadConvsHanded(db: Db, todo: set<GroupId>, pick: map<GroupId, UserId>, g: GroupId, u: UserId)
    requires g in db.groups && g !in todo && pick.Keys <= todo
    ensures DeadConvs(db, todo + {g}, pick[g := u]) == DeadConvs(db, todo, pick)
  {
  }

  lemma NextDropped(db: Db, todo: set<GroupId>, pick: map<GroupId, UserId>, g: GroupId)
    requires SchemaOk(db) && g in db.groups && g !in todo && pick.Keys <= todo <= db.groups.Keys
    ensures Settled(db, todo + {g}, pick) == DropConv(Settled(db, todo, pick), db.groups[g].conv)
  {
    NextDroppedGroups(db, todo, pick, g);
    DeadConvsDropped(db, todo, pick, g);
    var dead, c := DeadConvs(db, todo, pick), db.groups[g].conv;
    RowsDropped(db, dead, pick, c);
    MessagesDropped(db, dead, c);
    hide SettledGroups, SettledMembers, SettledMessages, DeadConvs, SchemaOk;
    assert Settled(db, todo + {g}, pick).convs == db.convs - dead - {c};
  }

  lemma NextDroppedGroups(db: Db, todo: set<GroupId>, pick: map<GroupId, UserId>, g: GroupId)
    requires SchemaOk(db) && g in db.groups && g !in todo && pick.Keys <= todo <= db.groups.Keys
    ensures var d := SettledGroups(db, todo, pick);
            SettledGroups(db, todo + {g}, pick) == map h | h in d && d[h].conv != db.groups[g].conv :: d[h]
  {
    forall h | h in db.groups ensures db.groups[h].conv == db.groups[g].conv <==> h == g {}
    hide SchemaOk;
    var d, d' := SettledGroups(db, todo, pick), SettledGroups(db, todo + {g}, pick);
    assert forall h | h in d :: d[h].conv == db.groups[h].conv;
    assert d' == map h | h in d && d[h].conv != db.groups[g].conv :: d[h];
  }

  lemma RowsDropped(db: Db, dead: set<ConvId>, pick: map<GroupId, UserId>, c: ConvId)
    ensures var d := SettledMembers(db, dead, pick);
            SettledMembers(db, dead + {c}, pick) == map k | k in d && k.0 != c :: d[k]
  {
  }

  lemma MessagesDropped(db: Db, dead: set<ConvId>, c: ConvId)
    ensures var d := SettledMessages(db, dead);
            SettledMessages(db, dead + {c}) == map m | m in d && d[m].conv != c :: d[m]
  {
  }

  lemma NotDeadYet(db: Db, todo: set<GroupId>, pick: map<GroupId, UserId>, g: GroupId)
    requires SchemaOk(db) && g in db.groups && g !in todo
    ensures db.groups[g].conv !in DeadConvs(db, todo, pick)
  {
  }

  function HandOver(d: Db, g: GroupId, u: UserId): Db
    requires g in d.groups && (d.groups[g].conv, u) in d.members
  {
    var k := (d.groups[g].conv, u);
    d.(groups := d.groups[g := d.groups[g].(owner := u)], members := d.members[k := d.members[k].(role := Owner)])
  }

  lemma NextHandedGroups(db: Db, todo: set<GroupId>, pick: map<GroupId, UserId>, g: GroupId, u: UserId)
    requires g in db.groups && g !in todo && pick.Keys <= todo
    ensures var d := SettledGroups(db, todo, pick);
            g in d && d[g] == db.groups[g] &&
            SettledGroups(db, todo + {g}, pick[g := u]) == d[g := d[g].(owner := u)]
  {
  }

  lemma NextHanded(db: Db, todo: set<GroupId>, pick: map<GroupId, UserId>, g: GroupId, u: UserId)
    requires SchemaOk(db) && g in db.groups && g !in todo && pick.Keys <= todo <= db.groups.Keys
    requires (db.groups[g].conv, u) in db.members
    ensures g in Settled(db, todo, pick).groups && Settled(db, todo, pick).groups[g] == db.groups[g]
    ensures (db.groups[g].conv, u) in Settled(db, todo, pick).members
    ensures Settled(db, todo + {g}, pick[g := u]) == HandOver(Settled(db, todo, pick), g, u)
  {
    NextHandedGroups(db, todo, pick, g, u);
    DeadConvsHanded(db, todo, pick, g, u);
    NotDeadYet(db, todo, pick, g);
    RowsHanded(db, DeadConvs(db, todo, pick), pick, g, u);
    hide SettledGroups, SettledMembers, SettledMessages, DeadConvs, SchemaOk;
  }

  lemma RowsHanded(db: Db, dead: set<ConvId>, pick: map<GroupId, UserId>, g: GroupId, u: UserId)
    requires SchemaOk(db) && g in db.groups && g !in pick && (db.groups[g].conv, u) in db.members
    requires db.groups[g].conv !in dead
    ensures var d, k := SettledMembers(db, dead, pick), (db.groups[g].conv, u);
            k in d && SettledMembers(db, dead, pick[g := u]) == d[k := d[k].(role := Owner)]
  {
  }

  /** Work on one group does not disturb what the query sees of another. */
  lemma CandidatesUntouched(db: Db, todo: set<GroupId>, user: UserId, pick: map<GroupId, UserId>, g: GroupId)
    requires SchemaOk(db) && g in db.groups && g !in todo && Choices(db, todo, user, pick)
    ensures var d := Settled(db, todo, pick); var c := db.groups[g].conv;
            g in d.groups && d.groups[g] == db.groups[g] &&
            Candidates(d.members, c, user) == Candidates(db.members, c, user) &&
            (forall u | IsSuccessor(d.members, c, user, u) ::
               (c, u) in db.members && IsSuccessor(db.members, c, user, u)) &&
            forall u | (c, u) in db.members :: (c, u) in d.members && d.members[(c, u)] == db.members[(c, u)]
  {
    var d, c := Settled(db, todo, pick), db.groups[g].conv;
    assert c !in DeadConvs(db, todo, pick);
    forall u | (c, u) in db.members ensures (c, u) in d.members && d.members[(c, u)] == db.members[(c, u)] {
      assert !Promoted(db, pick, (c, u));
    }
    forall u ensures u in Candidates(d.members, c, user) <==> u in Candidates(db.members, c, user) {
      assert (c, u) in d.members <==> (c, u) in db.members;
    }
  }

  lemma ChoicesNext(db: Db, todo: set<GroupId>, user: UserId, pick: map<GroupId, UserId>, g: GroupId)
    requires Choices(db, todo, user, pick) && g in db.groups && g !in todo
    ensures pick.Keys <= todo <= db.groups.Keys
    ensures var c := db.groups[g].conv;
            (Candidates(db.members, c, user) == {} ==> Choices(db, todo + {g}, user, pick)) &&
            forall u: UserId | IsSuccessor(db.members, c, user, u) :: Choices(db, todo + {g}, user, pick[g := u])
  {
  }

  class AccountStore {
    var groups: map<GroupId, Group>
    var convs: map<ConvId, Kind>
    var members: map<(ConvId, UserId), Row>
    var messages: map<MessageId, Message>

    ghost function Tables(): Db
      reads this
    {
      Db(groups, convs, members, messages)
    }

    method DropConversation(c: ConvId)
      modifies this
      ensures Tables() == DropConv(old(Tables()), c)
    {
      convs := convs - {c};
      groups := map g | g in groups && groups[g].conv != c :: groups[g];
      members := map k | k in members && k.0 != c :: members[k];
      messages := map m | m in messages && messages[m].conv != c :: messages[m];
    }

    /** `.first()` of the ordered candidate query. */
    method FirstCandidate(c: ConvId, leaver: UserId) returns (u: Option<UserId>)
      ensures if u == None then Candidates(members, c, leaver) == {} else IsSuccessor(members, c, leaver, u.value)
      ensures u.Some? ==> (c, u.value) in members
    {
      var candidates := Candidates(members, c, leaver);
      if candidates == {} {
        return None;
      }
      ghost var first := FirstExists(members, c, candidates);
      var v :| v in candidates && forall w | w in candidates :: NotAfter(members[(c, v)], members[(c, w)]);
      return Some(v);
    }

    method ReassignOrDeleteOwnedGroups(user: UserId) returns (ghost pick: map<GroupId, UserId>)
      requires SchemaOk(Tables())
      modifies this
      ensures Choices(old(Tables()), Owned(old(Tables()), user), user, pick)
      ensures Tables() == Settled(old(Tables()), Owned(old(Tables()), user), pick)
    {
      hide Settled, Candidates, IsSuccessor, NotAfter, SchemaOk, DropConv, Choices;
      ghost var db := Tables();
      var owned := set g | g in groups && groups[g].owner == user;
      var todo := owned;
      pick := map[];
      assert owned - todo == {};
      SettleNothing(db, user);
      while todo != {}
        invariant todo <= owned && Choices(db, owned - todo, user, pick)
        invariant Tables() == Settled(db, owned - todo, pick)
        decreases todo
      {
        SomeElement(todo);
        var g :| g in todo;
        ghost var done := owned - todo;
        assert owned - (todo - {g}) == done + {g};
        CandidatesUntouched(db, done, user, pick, g);
        ChoicesNext(db, done, user, pick, g);
        var c := groups[g].conv;
        var replacement := FirstCandidate(c, user);
        if replacement == None {
          NextDropped(db, done, pick, g);
          DropConversation(c);
        } else {
          var u := replacement.value;
          NextHanded(db, done, pick, g, u);
          groups := groups[g := groups[g].(owner := u)];
          members := members[(c, u) := members[(c, u)].(role := Owner)];
          pick := pick[g := u];
        }
        todo := todo - {g};
      }
      assert owned - {} == owned == Owned(db, user);
    }

    /** The group part of `delete_account`: reassign, then leave every group chat. */
    method DeleteAccount(user: UserId) returns (ghost pick: map<GroupId, UserId>)
      requires SchemaOk(Tables())
      modifies this
      ensures Choices(old(Tables()), Owned(old(Tables()), user), user, pick)
      ensures Tables() == Left(Settled(old(Tables()), Owned(old(Tables()), user), pick), user)
    {
      pick := ReassignOrDeleteOwnedGroups(user);
      members := map k | k in members && !(k.1 == user && k.0 in convs && convs[k.0] == GroupChat) :: members[k];
    }
  }

  lemma SettleNothing(db: Db, user: UserId)
    ensures Settled(db, {}, map[]) == db && Choices(db, {}, user, map[])
  {
    assert DeadConvs(db, {}, map[]) == {};
    var d := Settled(db, {}, map[]);
    assert d.groups == db.groups && d.convs == db.convs && d.members == db.members && d.messages == db.messages;
  }

  // ----- what the result guarantees -----

  ghost function Deleted(db: Db, user: UserId, pick: map<GroupId, UserId>): Db {
    Left(Settled(db, Owned(db, user), pick), user)
  }

  lemma SurvivingGroup(db: Db, user: UserId, pick: map<GroupId, UserId>, g: GroupId)
    requires GroupsOk(db) && Choices(db, Owned(db, user), user, pick)
    requires g in Settled(db, Owned(db, user), pick).groups
    ensures g in db.groups && db.groups[g].conv !in DeadConvs(db, Owned(db, user), pick)
    ensures forall u :: Promoted(db, pick, (db.groups[g].conv, u)) <==> g in pick && u == pick[g]
    ensures OwnerOk(db, g)
  {
  }

  /** The ownership invariant holds again once the account is deleted. */
  lemma DeletionKeepsGroupsOk(db: Db, user: UserId, pick: map<GroupId, UserId>)
    requires GroupsOk(db) && Choices(db, Owned(db, user), user, pick)
    ensures GroupsOk(Deleted(db, user, pick))
  {
    var d, e := Settled(db, Owned(db, user), pick), Deleted(db, user, pick);
    forall g | g in e.groups ensures OwnerOk(e, g) {
      SurvivingGroup(db, user, pick, g);
      var c, owner := e.groups[g].conv, e.groups[g].owner;
      if g in pick {
        assert owner in Candidates(db.members, c, user);
        assert (c, owner) in db.members && db.members[(c, owner)].status == Active && owner != user;
      } else {
        assert owner == db.groups[g].owner && owner != user;
      }
      assert (c, owner) in e.members;
      forall u | (c, u) in e.members && e.members[(c, u)].role == Owner ensures u == owner {
        assert (c, u) in db.members;
        assert u != user;
        if !Promoted(db, pick, (c, u)) { assert db.members[(c, u)].role == Owner; }
      }
    }
  }

  /** Between the two steps the invariant holds exactly when no owned group has another active member;
      otherwise some group was handed over while its old owner still has the owner role. */
  lemma BrokenInBetweenIff(db: Db, user: UserId, pick: map<GroupId, UserId>)
    requires GroupsOk(db) && Choices(db, Owned(db, user), user, pick)
    ensures GroupsOk(Settled(db, Owned(db, user), pick)) <==>
              forall g | g in Owned(db, user) :: Candidates(db.members, db.groups[g].conv, user) == {}
  {
    var d := Settled(db, Owned(db, user), pick);
    if g :| g in Owned(db, user) && Candidates(db.members, db.groups[g].conv, user) != {} {
      SurvivingGroup(db, user, pick, g);
      var c := db.groups[g].conv;
      assert pick[g] in Candidates(db.members, c, user);
      assert (c, user) in d.members && d.members[(c, user)].role == Owner && d.groups[g].owner != user;
      assert !OwnerOk(d, g);
    } else {
      forall g | g in d.groups ensures OwnerOk(d, g) { SurvivingGroup(db, user, pick, g); }
    }
  }

  /** No group and no group membership mentions the deleted user. */
  lemma NoTraceInGroups(db: Db, user: UserId, pick: map<GroupId, UserId>)
    requires GroupsOk(db) && Choices(db, Owned(db, user), user, pick)
    ensures var e := Deleted(db, user, pick);
            (forall g | g in e.groups :: e.groups[g].owner != user) &&
            forall c | (c, user) in e.members :: c in e.convs ==> e.convs[c] != GroupChat
  {
  }

  /** The fate of each owned group: handed to a first-ranked active member, or gone with its
      chat, members and messages when there is none. */
  lemma FateOfOwnedGroup(db: Db, user: UserId, pick: map<GroupId, UserId>, g: GroupId)
    requires GroupsOk(db) && Choices(db, Owned(db, user), user, pick) && g in Owned(db, user)
    ensures var e, c := Deleted(db, user, pick), db.groups[g].conv;
            if Candidates(db.members, c, user) == {} then
              g !in e.groups && c !in e.convs && (forall u :: (c, u) !in e.members) &&
              forall m | m in e.messages :: e.messages[m].conv != c
            else
              g in e.groups && e.groups[g].conv == c && c in e.convs &&
              IsSuccessor(db.members, c, user, e.groups[g].owner) &&
              (c, e.groups[g].owner) in e.members && e.members[(c, e.groups[g].owner)].role == Owner
  {
  }

  /** The candidates, on the columns. */
  predicate Eligible(db: Db, c: ConvId, leaver: UserId, u: UserId) {
    u != leaver && (c, u) in db.members && db.members[(c, u)].status == Active
  }

  /** The new owner's rank: an admin when there is an active one, and then the earliest of them to have
      joined; otherwise the earliest active member to have joined. */
  lemma NewOwnerRank(db: Db, user: UserId, pick: map<GroupId, UserId>, g: GroupId)
    requires GroupsOk(db) && Choices(db, Owned(db, user), user, pick)
    requires g in db.groups && db.groups[g].owner == user
    ensures var e, c := Deleted(db, user, pick), db.groups[g].conv;
            (g in e.groups <==> exists v :: Eligible(db, c, user, v)) &&
            (g in e.groups ==>
               var u := e.groups[g].owner;
               Eligible(db, c, user, u) &&
               if exists v :: Eligible(db, c, user, v) && db.members[(c, v)].role == Admin
               then db.members[(c, u)].role == Admin &&
                    forall v | Eligible(db, c, user, v) && db.members[(c, v)].role == Admin ::
                      db.members[(c, u)].joinedAt <= db.members[(c, v)].joinedAt
               else forall v | Eligible(db, c, user, v) :: db.members[(c, u)].joinedAt <= db.members[(c, v)].joinedAt)
  {
    var c := db.groups[g].conv;
    FateOfOwnedGroup(db, user, pick, g);
    forall v ensures v in Candidates(db.members, c, user) <==> Eligible(db, c, user, v) {
      if Eligible(db, c, user, v) { assert (c, v).1 in Candidates(db.members, c, user); }
    }
    if Candidates(db.members, c, user) != {} {
      SomeElement(Candidates(db.members, c, user));
      var v :| v in Candidates(db.members, c, user);
      assert Eligible(db, c, user, v);
    }
    hide Deleted, Candidates, Choices, GroupsOk;
  }

  ghost predicate Vanishes(db: Db, user: UserId, c: ConvId) {
    exists g :: g in Owned(db, user) && db.groups[g].conv == c && Candidates(db.members, c, user) == {}
  }

  /** Everyone else's rows, the user's direct chats, other people's groups and every message in a
      surviving chat are as before; a successor only gains the owner role, in its own group's chat. */
  lemma OthersUntouched(db: Db, user: UserId, pick: map<GroupId, UserId>)
    requires GroupsOk(db) && Choices(db, Owned(db, user), user, pick)
    ensures var e := Deleted(db, user, pick);
            (forall k | k in db.members && !Vanishes(db, user, k.0) &&
                        (k.1 != user || (k.0 in db.convs && db.convs[k.0] != GroupChat)) ::
               k in e.members &&
               e.members[k] == if Promoted(db, pick, k) then db.members[k].(role := Owner) else db.members[k]) &&
            (forall c | c in db.convs && !Vanishes(db, user, c) :: c in e.convs && e.convs[c] == db.convs[c]) &&
            (forall m | m in db.messages && !Vanishes(db, user, db.messages[m].conv) ::
               m in e.messages && e.messages[m] == db.messages[m]) &&
            forall g | g in db.groups && db.groups[g].owner != user :: g in e.groups && e.groups[g] == db.groups[g]
  {
  }
}
