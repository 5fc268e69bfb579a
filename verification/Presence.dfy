/**
 Who sees whose presence: `shows_presence` and `presence_audience` of backend/app/shared/presence.py, as
 queries over the tables they join.
 */
module Presence {
  type UserId = int
  type ConvId = int

  /** `a` and `b` are the two columns of the row; a pair may have a row in either order. */
  datatype Match = Match(a: UserId, b: UserId, disconnected: bool)

  datatype Kind = Dm | StaffDm | Group

  /** `profiles` maps a user to "Show online status"; `active` holds the active memberships. */
  datatype Db = Db(
    profiles: map<UserId, bool>,
    matches: set<Match>,
    convs: map<ConvId, Kind>,
    active: set<(ConvId, UserId)>,
    blocks: set<(UserId, UserId)>)

  function ShowsPresence(db: Db, u: UserId): bool {
    if u in db.profiles then db.profiles[u] else true
  }

  function Partner(m: Match, u: UserId): UserId {
    if m.a == u then m.b else m.a
  }

  function Connections(db: Db, u: UserId): set<UserId> {
    set m | m in db.matches && (m.a == u || m.b == u) && !m.disconnected :: Partner(m, u)
  }

  function StaffPartners(db: Db, u: UserId): set<UserId> {
    set k | k in db.active && k.1 != u && (k.0, u) in db.active && k.0 in db.convs && db.convs[k.0] == StaffDm :: k.1
  }

  predicate Blocked(db: Db, u: UserId, v: UserId) {
    (u, v) in db.blocks || (v, u) in db.blocks
  }

  function Audience(db: Db, u: UserId): set<UserId> {
    if !ShowsPresence(db, u) then {}
    else
      var people := Connections(db, u) + StaffPartners(db, u);
      set v | v in people && v in db.profiles && db.profiles[v] && !Blocked(db, u, v)
  }

  // ----- the relation it computes -----

  /** Connected by a match that nobody ended, or in a staff chat together; both sides named alike. */
  ghost predicate Linked(db: Db, u: UserId, v: UserId) {
    Match(u, v, false) in db.matches || Match(v, u, false) in db.matches ||
    (u != v && exists c :: c in db.convs && db.convs[c] == StaffDm && (c, u) in db.active && (c, v) in db.active)
  }

  lemma LinkedMeans(db: Db, u: UserId, v: UserId)
    ensures Linked(db, u, v) <==> v in Connections(db, u) || v in StaffPartners(db, u)
  {
    if v in Connections(db, u) {
      var m :| m in db.matches && (m.a == u || m.b == u) && !m.disconnected && Partner(m, u) == v;
      assert m == Match(u, v, false) || m == Match(v, u, false);
    }
    if Match(u, v, false) in db.matches {
      assert Partner(Match(u, v, false), u) == v;
    }
    if Match(v, u, false) in db.matches {
      assert Partner(Match(v, u, false), u) == v;
    }
    if u != v && exists c :: c in db.convs && db.convs[c] == StaffDm && (c, u) in db.active && (c, v) in db.active {
      var c :| c in db.convs && db.convs[c] == StaffDm && (c, u) in db.active && (c, v) in db.active;
      assert (c, v).1 in StaffPartners(db, u);
    }
  }

  predicate RowShows(db: Db, u: UserId) {
    u in db.profiles && db.profiles[u]
  }

  /** The query, read as a condition on the two people: the viewer needs a profile row that shows
      presence, the one seen only must not hide theirs. */
  lemma AudienceIs(db: Db, u: UserId, v: UserId)
    ensures v in Audience(db, u) <==>
              Linked(db, u, v) && (u, v) !in db.blocks && (v, u) !in db.blocks &&
              (u in db.profiles ==> db.profiles[u]) && v in db.profiles && db.profiles[v]
  {
    LinkedMeans(db, u, v);
  }

  /** Two people see each other or neither sees the other, unless exactly one of them has no profile
      row and nothing else keeps them apart. */
  lemma SymmetricIff(db: Db, u: UserId, v: UserId)
    ensures (v in Audience(db, u) <==> u in Audience(db, v)) <==>
              !(Linked(db, u, v) && !Blocked(db, u, v) &&
                ((u !in db.profiles && RowShows(db, v)) || (v !in db.profiles && RowShows(db, u))))
  {
    AudienceIs(db, u, v);
    AudienceIs(db, v, u);
    assert Linked(db, u, v) <==> Linked(db, v, u);
  }

  /** When everyone has a profile, presence is symmetric, whatever the matches, chats, switches and
      blocks; when no match pairs a user with itself, nobody is in their own audience. */
  lemma PresenceIsSymmetric(db: Db)
    requires forall u, v | Linked(db, u, v) :: u in db.profiles && v in db.profiles
    ensures forall u, v :: v in Audience(db, u) <==> u in Audience(db, v)
    ensures (forall u :: Match(u, u, false) !in db.matches) ==> forall u :: u !in Audience(db, u)
  {
    forall u, v ensures v in Audience(db, u) <==> u in Audience(db, v) { SymmetricIff(db, u, v); }
    forall u | Match(u, u, false) !in db.matches ensures u !in Audience(db, u) { AudienceIs(db, u, u); }
  }

  lemma SeesSelfIff(db: Db, u: UserId)
    ensures u in Audience(db, u) <==> Match(u, u, false) in db.matches && RowShows(db, u) && (u, u) !in db.blocks
  {
  }

  /** Someone who hides their presence sees nobody and is seen by nobody; a block, in either
      direction, cuts both directions. */
  lemma HidingIsReciprocal(db: Db, u: UserId, v: UserId)
    requires (u in db.profiles && !db.profiles[u]) || (u, v) in db.blocks || (v, u) in db.blocks
    ensures v !in Audience(db, u) && u !in Audience(db, v)
  {
  }
}
