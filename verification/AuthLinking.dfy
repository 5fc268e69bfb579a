/**
 Linking users to auth identities: backend/app/shared/auth_linking.py on a session that does not flush
 before a query (backend/app/database.py:77). So the clash query sees committed rows only, and the
 assignments of the loop reach the database in one commit, where the partial unique index on
 `auth_user_id` applies. The directory lookup is a parameter.
 */
module AuthLinking {
  import opened Prelude

  type UserId = int
  type Uid = int

  datatype User = User(email: string, deleted: bool, statusDeleted: bool, authId: Option<Uid>)

  /** What the directory answers for an email. */
  datatype Answer = NoAccount | Malformed | Account(uid: Uid)

  type Users = map<UserId, User>

  predicate IsLive(u: User) {
    !u.deleted && !u.statusDeleted
  }

  predicate Owns(db: Users, v: UserId, uid: Uid) {
    v in db && db[v].authId == Some(uid)
  }

  /** The partial unique index. */
  ghost predicate UniqueIds(db: Users) {
    forall u, v, uid | Owns(db, u, uid) && Owns(db, v, uid) :: u == v
  }

  predicate Taken(db: Users, u: UserId, uid: Uid) {
    exists v :: v in db && v != u && Owns(db, v, uid)
  }

  datatype Outcome = AlreadyLinked | Tombstone | Missing | BadId | Clash(owner: UserId) | Links(uid: Uid)

  /** What happens to one user, decided by the committed rows alone. */
  function Classify(db: Users, u: UserId, lookup: string -> Answer): Outcome
    requires u in db && UniqueIds(db)
  {
    if db[u].authId.Some? then AlreadyLinked
    else if !IsLive(db[u]) then Tombstone
    else
      match lookup(db[u].email)
      case NoAccount => Missing
      case Malformed => BadId
      case Account(uid) =>
        if Taken(db, u, uid) then Clash(var v :| v in db && v != u && Owns(db, v, uid); v) else Links(uid)
  }

  datatype Report = Report(linked: seq<UserId>, alreadyLinked: nat, deletedUnlinked: nat, missing: seq<UserId>,
                           conflicts: seq<(UserId, Outcome)>)

  /** `ok_for_credential_drop`. */
  predicate GateOk(r: Report) {
    r.missing == [] && r.conflicts == []
  }

  function Add(r: Report, u: UserId, o: Outcome): Report {
    match o
    case AlreadyLinked => r.(alreadyLinked := r.alreadyLinked + 1)
    case Tombstone => r.(deletedUnlinked := r.deletedUnlinked + 1)
    case Missing => r.(missing := r.missing + [u])
    case Links(_) => r.(linked := r.linked + [u])
    case _ => r.(conflicts := r.conflicts + [(u, o)])
  }

  /** A listing of all rows, each once. */
  ghost predicate Lists(order: seq<UserId>, db: Users) {
    (forall u :: u in order <==> u in db) && forall i, j | 0 <= i < j < |order| :: order[i] != order[j]
  }

  /** The report for the first `n` users of a listing. */
  ghost function ReportFor(db: Users, order: seq<UserId>, n: nat, lookup: string -> Answer): Report
    requires UniqueIds(db) && Lists(order, db) && n <= |order|
  {
    if n == 0 then Report([], 0, 0, [], [])
    else Add(ReportFor(db, order, n - 1, lookup), order[n - 1], Classify(db, order[n - 1], lookup))
  }

  ghost function FullReport(db: Users, order: seq<UserId>, lookup: string -> Answer): Report
    requires UniqueIds(db) && Lists(order, db)
  {
    ReportFor(db, order, |order|, lookup)
  }

  /** Every user the loop links gets its id; nobody else changes. */
  function Applied(db: Users, lookup: string -> Answer): Users
    requires UniqueIds(db)
  {
    map u | u in db :: var o := Classify(db, u, lookup); if o.Links? then db[u].(authId := Some(o.uid)) else db[u]
  }

  /** No two users are about to get the same id. */
  ghost predicate NoTwins(db: Users, lookup: string -> Answer)
    requires UniqueIds(db)
  {
    forall u, v | u in db && v in db && u != v && Classify(db, u, lookup).Links? ::
      Classify(db, u, lookup) != Classify(db, v, lookup)
  }

  /** What the index looks for. */
  predicate TwoShare(db: Users) {
    exists u, v :: u in db && v in db && u != v && db[u].authId.Some? && db[u].authId == db[v].authId
  }

  class Session {
    var rows: Users

    /** The commit of a session's pending rows: refused when the unique index would be violated. */
    method Commit(pending: Users) returns (ok: bool)
      modifies this
      ensures ok <==> UniqueIds(pending)
      ensures rows == if ok then pending else old(rows)
    {
      ok := !TwoShare(pending);
      if ok {
        DistinctIds(pending);
        rows := pending;
      } else {
        SharedId(pending);
      }
    }

    /** `order` is the order of the emails. An error is the failed commit: nothing is stored and the
        report is lost. */
    method LinkExistingAuthUsers(order: seq<UserId>, lookup: string -> Answer, apply: bool)
      returns (r: Result<Report, ()>)
      requires UniqueIds(rows) && Lists(order, rows)
      modifies this
      ensures r.Ok? <==> apply ==> NoTwins(old(rows), lookup)
      ensures r.Ok? ==> r.value == FullReport(old(rows), order, lookup)
      ensures rows == if apply && r.Ok? then Applied(old(rows), lookup) else old(rows)
    {
      hide Partly, UniqueIds, Taken, NoTwins, Applied, Classify, ReportFor;
      var report := Report([], 0, 0, [], []);
      var pending := rows;
      Nothing(rows, order, lookup);
      for i := 0 to |order|
        invariant rows == old(rows)
        invariant report == ReportFor(rows, order, i, lookup)
        invariant pending == if apply then Partly(rows, order, i, lookup) else rows
      {
        var u := order[i];
        OneMore(rows, order, i, lookup);
        Outcomes(rows, u, lookup);
        if rows[u].authId.Some? {
          report := report.(alreadyLinked := report.alreadyLinked + 1);
          continue;
        }
        if !IsLive(rows[u]) {
          report := report.(deletedUnlinked := report.deletedUnlinked + 1);
          continue;
        }
        match lookup(rows[u].email) {
          case NoAccount => report := report.(missing := report.missing + [u]);
          case Malformed => report := report.(conflicts := report.conflicts + [(u, BadId)]);
          case Account(uid) =>
            if Taken(rows, u, uid) {
              report := report.(conflicts := report.conflicts + [(u, Classify(rows, u, lookup))]);
            } else {
              if apply {
                pending := pending[u := rows[u].(authId := Some(uid))];
              }
              report := report.(linked := report.linked + [u]);
            }
        }
      }
      if apply {
        Everything(rows, order, lookup);
        AppliedIsUniqueIff(rows, lookup);
        if report.linked != [] {
          var ok := Commit(pending);
          if !ok {
            return Err(());
          }
        } else {
          NothingToLink(rows, order, lookup);
          NoLinksNoTwins(rows, lookup);
        }
      }
      return Ok(report);
    }
  }

  /** The pending rows after the first `n` users. */
  ghost function Partly(db: Users, order: seq<UserId>, n: nat, lookup: string -> Answer): Users
    requires UniqueIds(db) && n <= |order|
  {
    map u | u in db :: if u in order[..n] then Applied(db, lookup)[u] else db[u]
  }

  /** The cases of `Classify`, without the choice of the owner. */
  lemma Outcomes(db: Users, u: UserId, lookup: string -> Answer)
    requires u in db && UniqueIds(db)
    ensures var o, a := Classify(db, u, lookup), lookup(db[u].email);
            if db[u].authId.Some? then o == AlreadyLinked
            else if !IsLive(db[u]) then o == Tombstone
            else if a == NoAccount then o == Missing
            else if a == Malformed then o == BadId
            else if Taken(db, u, a.uid) then o.Clash? && o.owner != u && Owns(db, o.owner, a.uid)
            else o == Links(a.uid)
  {
  }

  lemma Nothing(db: Users, order: seq<UserId>, lookup: string -> Answer)
    requires UniqueIds(db) && Lists(order, db)
    ensures Partly(db, order, 0, lookup) == db && ReportFor(db, order, 0, lookup) == Report([], 0, 0, [], [])
  {
  }

  lemma Everything(db: Users, order: seq<UserId>, lookup: string -> Answer)
    requires UniqueIds(db) && Lists(order, db)
    ensures Partly(db, order, |order|, lookup) == Applied(db, lookup)
  {
  }

  lemma OneMore(db: Users, order: seq<UserId>, i: nat, lookup: string -> Answer)
    requires UniqueIds(db) && Lists(order, db) && i < |order|
    ensures var u, o := order[i], Classify(db, order[i], lookup);
            ReportFor(db, order, i + 1, lookup) == Add(ReportFor(db, order, i, lookup), u, o) &&
            Partly(db, order, i + 1, lookup) ==
            if o.Links? then Partly(db, order, i, lookup)[u := db[u].(authId := Some(o.uid))]
              else Partly(db, order, i, lookup)
  {
    hide Classify;
    assert order[..i + 1] == order[..i] + [order[i]];
    assert order[i] !in order[..i];
  }

  lemma SharedId(db: Users)
    requires TwoShare(db)
    ensures !UniqueIds(db)
  {
    var u, v :| u in db && v in db && u != v && db[u].authId.Some? && db[u].authId == db[v].authId;
    assert Owns(db, u, db[u].authId.value) && Owns(db, v, db[u].authId.value);
  }

  lemma DistinctIds(db: Users)
    requires !TwoShare(db)
    ensures UniqueIds(db)
  {
  }

  lemma NoLinksNoTwins(db: Users, lookup: string -> Answer)
    requires UniqueIds(db) && forall u | u in db :: !Classify(db, u, lookup).Links?
    ensures Applied(db, lookup) == db && NoTwins(db, lookup)
  {
  }

  lemma NothingToLink(db: Users, order: seq<UserId>, lookup: string -> Answer)
    requires UniqueIds(db) && Lists(order, db) && FullReport(db, order, lookup).linked == []
    ensures forall u | u in db :: !Classify(db, u, lookup).Links?
  {
    forall u | u in db ensures !Classify(db, u, lookup).Links? { WhereReported(db, order, lookup, u); }
  }

  // ----- five outcomes -----

  lemma {:induction false} ReportedSoFar(db: Users, order: seq<UserId>, n: nat, lookup: string -> Answer, u: UserId)
    requires UniqueIds(db) && Lists(order, db) && n <= |order|
    ensures var r, seen := ReportFor(db, order, n, lookup), u in db && u in order[..n];
            (u in r.linked <==> seen && Classify(db, u, lookup).Links?) &&
            (u in r.missing <==> seen && Classify(db, u, lookup).Missing?) &&
            forall c :: (u, c) in r.conflicts <==> seen && c == Classify(db, u, lookup) && (c.BadId? || c.Clash?)
    ensures var r := ReportFor(db, order, n, lookup);
            |r.linked| + r.alreadyLinked + r.deletedUnlinked + |r.missing| + |r.conflicts| == n
  {
    hide Classify;
    if n > 0 {
      ReportedSoFar(db, order, n - 1, lookup, u);
      assert order[..n] == order[..n - 1] + [order[n - 1]];
    }
  }

  /** Each user appears in exactly the place its outcome says, and the five counts add up to the
      number of users. */
  lemma WhereReported(db: Users, order: seq<UserId>, lookup: string -> Answer, u: UserId)
    requires UniqueIds(db) && Lists(order, db)
    ensures var r := FullReport(db, order, lookup);
            (u in r.linked <==> u in db && Classify(db, u, lookup).Links?) &&
            (u in r.missing <==> u in db && Classify(db, u, lookup).Missing?) &&
            forall c :: (u, c) in r.conflicts <==> u in db && c == Classify(db, u, lookup) && (c.BadId? || c.Clash?)
    ensures var r := FullReport(db, order, lookup);
            |r.linked| + r.alreadyLinked + r.deletedUnlinked + |r.missing| + |r.conflicts| == |order| == |db|
  {
    assert order[..|order|] == order;
    ReportedSoFar(db, order, |order|, lookup, u);
    DistinctSize(order);
    assert (set x | x in order) == db.Keys;
  }

  /** The outcome of a user, on the columns and the directory's answer. */
  lemma OutcomeIs(db: Users, u: UserId, lookup: string -> Answer)
    requires UniqueIds(db) && u in db
    ensures var o, a, row := Classify(db, u, lookup), lookup(db[u].email), db[u];
            var open := row.authId == None && !row.deleted && !row.statusDeleted;
            (o == AlreadyLinked <==> row.authId.Some?) &&
            (o == Tombstone <==> row.authId == None && (row.deleted || row.statusDeleted)) &&
            (o == Missing <==> open && a == NoAccount) && (o == BadId <==> open && a == Malformed) &&
            (o.Clash? <==> open && a.Account? && exists v :: v in db && v != u && db[v].authId == Some(a.uid)) &&
            (o.Clash? ==> o.owner in db && o.owner != u && db[o.owner].authId == Some(a.uid)) &&
            (o.Links? ==> o == Links(a.uid))
  {
    if lookup(db[u].email).Account? {
      var uid := lookup(db[u].email).uid;
      assert forall v | v in db && v != u :: Owns(db, v, uid) <==> db[v].authId == Some(uid);
    }
  }

  ghost function Among(db: Users, order: seq<UserId>, n: nat, lookup: string -> Answer, o: Outcome): set<UserId>
    requires UniqueIds(db) && Lists(order, db) && n <= |order|
  {
    set u | u in order[..n] && u in db && Classify(db, u, lookup) == o
  }

  lemma {:induction false} CountsSoFar(db: Users, order: seq<UserId>, n: nat, lookup: string -> Answer)
    requires UniqueIds(db) && Lists(order, db) && n <= |order|
    ensures var r := ReportFor(db, order, n, lookup);
            r.alreadyLinked == |Among(db, order, n, lookup, AlreadyLinked)| &&
            r.deletedUnlinked == |Among(db, order, n, lookup, Tombstone)|
  {
    hide Classify;
    if n > 0 {
      CountsSoFar(db, order, n - 1, lookup);
      OneMoreAmong(db, order, n, lookup, AlreadyLinked);
      OneMoreAmong(db, order, n, lookup, Tombstone);
      hide Among;
    }
  }

  lemma OneMoreAmong(db: Users, order: seq<UserId>, n: nat, lookup: string -> Answer, o: Outcome)
    requires UniqueIds(db) && Lists(order, db) && 0 < n <= |order|
    ensures |Among(db, order, n, lookup, o)| ==
            |Among(db, order, n - 1, lookup, o)| + if Classify(db, order[n - 1], lookup) == o then 1 else 0
  {
    hide Classify;
    var u := order[n - 1];
    assert order[..n] == order[..n - 1] + [u];
    assert u !in order[..n - 1];
    assert Among(db, order, n, lookup, o) ==
           Among(db, order, n - 1, lookup, o) + if Classify(db, u, lookup) == o then {u} else {};
  }

  /** The two plain counts are the numbers of users with an id, and of deleted users without one. */
  lemma CountsMean(db: Users, order: seq<UserId>, lookup: string -> Answer)
    requires UniqueIds(db) && Lists(order, db)
    ensures var r := FullReport(db, order, lookup);
            r.alreadyLinked == |set u | u in db && db[u].authId.Some?| &&
            r.deletedUnlinked == |set u | u in db && db[u].authId == None && (db[u].deleted || db[u].statusDeleted)|
  {
    CountsSoFar(db, order, |order|, lookup);
    assert order[..|order|] == order;
    forall u | u in db ensures Classify(db, u, lookup) == AlreadyLinked <==> db[u].authId.Some? {}
    forall u | u in db
      ensures Classify(db, u, lookup) == Tombstone <==> db[u].authId == None && (db[u].deleted || db[u].statusDeleted)
    {
    }
    hide Classify;
    var linked := set u | u in db && db[u].authId.Some?;
    var gone := set u | u in db && db[u].authId == None && (db[u].deleted || db[u].statusDeleted);
    forall u: UserId ensures u in Among(db, order, |order|, lookup, AlreadyLinked) <==> u in linked {}
    forall u: UserId ensures u in Among(db, order, |order|, lookup, Tombstone) <==> u in gone {}
    hide Among;
    assert Among(db, order, |order|, lookup, AlreadyLinked) == linked;
    assert Among(db, order, |order|, lookup, Tombstone) == gone;
  }

  // ----- applying -----

  /** An apply gives each unlinked live user, whose email has an identity that nobody owns, that
      identity, and changes nothing else. */
  lemma ApplyStores(db: Users, lookup: string -> Answer)
    requires UniqueIds(db)
    ensures var e := Applied(db, lookup);
            e.Keys == db.Keys &&
            forall u | u in db ::
              var row, a := db[u], lookup(db[u].email);
              e[u] == if row.authId == None && !row.deleted && !row.statusDeleted && a.Account? &&
                         forall v | v in db :: db[v].authId != Some(a.uid)
                      then row.(authId := Some(a.uid)) else row
  {
    forall u | u in db && lookup(db[u].email).Account? && db[u].authId == None
      ensures Taken(db, u, lookup(db[u].email).uid) <==>
              exists v :: v in db && db[v].authId == Some(lookup(db[u].email).uid)
    {
      if v :| v in db && db[v].authId == Some(lookup(db[u].email).uid) { assert Owns(db, v, lookup(db[u].email).uid); }
    }
  }

  /** The commit is accepted exactly when no two users got the same id. */
  lemma AppliedIsUniqueIff(db: Users, lookup: string -> Answer)
    requires UniqueIds(db)
    ensures UniqueIds(Applied(db, lookup)) <==> NoTwins(db, lookup)
  {
    var e := Applied(db, lookup);
    if NoTwins(db, lookup) {
      forall u, v, uid | Owns(e, u, uid) && Owns(e, v, uid) ensures u == v {
        assert Owns(db, u, uid) || Classify(db, u, lookup) == Links(uid);
        assert Owns(db, v, uid) || Classify(db, v, lookup) == Links(uid);
      }
    }
    if UniqueIds(e) {
      forall u, v | u in db && v in db && u != v && Classify(db, u, lookup).Links?
        ensures Classify(db, u, lookup) != Classify(db, v, lookup)
      {
        assert Owns(e, u, Classify(db, u, lookup).uid);
        if Classify(db, v, lookup) == Classify(db, u, lookup) { assert Owns(e, v, Classify(db, u, lookup).uid); }
      }
    }
  }

  /** Emails are unique and the directory never answers two emails with one id: then applying never
      fails, and distinct users have distinct ids. */
  lemma InjectiveLookupApplies(db: Users, lookup: string -> Answer)
    requires UniqueIds(db)
    requires forall u, v | u in db && v in db && db[u].email == db[v].email :: u == v
    requires forall u, v | u in db && v in db && Unlinked(db[u]) && Unlinked(db[v]) && lookup(db[u].email).Account? &&
                           lookup(db[u].email) == lookup(db[v].email) :: db[u].email == db[v].email
    ensures NoTwins(db, lookup) && UniqueIds(Applied(db, lookup))
  {
    forall u, v | u in db && v in db && u != v && Classify(db, u, lookup).Links?
      ensures Classify(db, u, lookup) != Classify(db, v, lookup)
    {
      var o := Classify(db, v, lookup);
      assert o.Links? ==> Unlinked(db[v]) && lookup(db[v].email) == Account(o.uid);
    }
    AppliedIsUniqueIff(db, lookup);
  }

  predicate Unlinked(u: User) {
    u.authId == None && IsLive(u)
  }

  /** A second apply links nobody and stores nothing. */
  lemma SecondApplyLinksNobody(db: Users, lookup: string -> Answer)
    requires UniqueIds(db) && NoTwins(db, lookup)
    ensures UniqueIds(Applied(db, lookup)) && Applied(Applied(db, lookup), lookup) == Applied(db, lookup)
    ensures forall u | u in db :: !Classify(Applied(db, lookup), u, lookup).Links?
  {
    AppliedIsUniqueIff(db, lookup);
    var e := Applied(db, lookup);
    forall u | u in db ensures !Classify(e, u, lookup).Links? {
      if Classify(db, u, lookup).Clash? {
        var uid := lookup(db[u].email).uid;
        var v :| v in db && v != u && Owns(db, v, uid);
        assert Owns(e, v, uid);
        assert Taken(e, u, uid);
      }
    }
    NoLinksNoTwins(e, lookup);
  }

  /** The gate says exactly whether every live account is linked once the links are applied. */
  lemma GateMeansAllLinked(db: Users, order: seq<UserId>, lookup: string -> Answer)
    requires UniqueIds(db) && Lists(order, db)
    ensures GateOk(FullReport(db, order, lookup)) <==>
              forall u | u in db && IsLive(db[u]) :: Applied(db, lookup)[u].authId.Some?
  {
    var r := FullReport(db, order, lookup);
    if GateOk(r) {
      forall u | u in db && IsLive(db[u]) ensures Applied(db, lookup)[u].authId.Some? {
        WhereReported(db, order, lookup, u);
        assert (u, Classify(db, u, lookup)) !in r.conflicts;
      }
    } else if r.missing != [] {
      var u := r.missing[0];
      WhereReported(db, order, lookup, u);
      assert u in r.missing && IsLive(db[u]) && Applied(db, lookup)[u].authId == None;
    } else {
      var k := r.conflicts[0];
      WhereReported(db, order, lookup, k.0);
      assert k == (k.0, k.1) && k in r.conflicts;
      assert IsLive(db[k.0]) && Applied(db, lookup)[k.0].authId == None;
    }
  }

  /** What the shipped lookup guarantees: it reads an email through `clean` (strip and lower case), and
      each identity of the directory has one email. */
  ghost predicate ReadsCleaned(lookup: string -> Answer, clean: string -> string) {
    (forall e, f | clean(e) == clean(f) :: lookup(e) == lookup(f)) &&
    forall e, f | lookup(e).Account? && lookup(e) == lookup(f) :: clean(e) == clean(f)
  }

  /** The user would be matched: unlinked, with an identity in the directory that no row has yet. */
  predicate Matched(db: Users, u: UserId, lookup: string -> Answer)
    requires u in db
  {
    Unlinked(db[u]) && lookup(db[u].email).Account? && forall v | v in db :: !Owns(db, v, lookup(db[u].email).uid)
  }

  lemma MatchedLinks(db: Users, u: UserId, lookup: string -> Answer)
    requires UniqueIds(db) && u in db
    ensures Classify(db, u, lookup).Links? <==> Matched(db, u, lookup)
    ensures Matched(db, u, lookup) ==> Classify(db, u, lookup) == Links(lookup(db[u].email).uid)
  {
    if Unlinked(db[u]) && lookup(db[u].email).Account? {
      var uid := lookup(db[u].email).uid;
      assert Taken(db, u, uid) <==> exists v :: v in db && Owns(db, v, uid);
    }
  }

  /** With the shipped lookup an apply succeeds exactly when no two matched users have emails that
      differ only in case and surrounding blanks: something to check before it. */
  lemma AppliesIffSpellingsDiffer(db: Users, lookup: string -> Answer, clean: string -> string)
    requires UniqueIds(db) && ReadsCleaned(lookup, clean)
    ensures NoTwins(db, lookup) <==>
              forall u, v | u in db && v in db && u != v && Matched(db, u, lookup) && Matched(db, v, lookup) ::
                clean(db[u].email) != clean(db[v].email)
  {
    forall u | u in db ensures Classify(db, u, lookup).Links? <==> Matched(db, u, lookup) {
      MatchedLinks(db, u, lookup);
    }
    forall u | u in db && Matched(db, u, lookup) ensures Classify(db, u, lookup) == Links(lookup(db[u].email).uid) {
      MatchedLinks(db, u, lookup);
    }
    hide Classify, Matched;
    if NoTwins(db, lookup) {
      forall u, v | u in db && v in db && u != v && Matched(db, u, lookup) && Matched(db, v, lookup)
        ensures clean(db[u].email) != clean(db[v].email)
      {
        assert Classify(db, u, lookup) != Classify(db, v, lookup);
      }
    } else {
      var u, v :| u in db && v in db && u != v && Classify(db, u, lookup).Links? &&
                  Classify(db, u, lookup) == Classify(db, v, lookup);
      assert Matched(db, u, lookup) && Matched(db, v, lookup);
    }
  }

  function Lower(s: string): string {
    seq(|s|, i requires 0 <= i < |s| => if 'A' <= s[i] <= 'Z' then s[i] + ' ' else s[i])
  }

  /** The input: a dry run that reports a clean gate for an apply that then fails. One person has two
      rows, spelt differently; the clash query does not see the id given to the other a moment ago. */
  lemma CleanDryRunMayNotApply() returns (db: Users, order: seq<UserId>, lookup: string -> Answer)
    ensures UniqueIds(db) && Lists(order, db) && ReadsCleaned(lookup, Lower)
    ensures GateOk(FullReport(db, order, lookup)) && !NoTwins(db, lookup)
  {
    db := map[1 := User("A@lc", false, false, None), 2 := User("a@lc", false, false, None)];
    order := [1, 2];
    lookup := (email: string) => if Lower(email) == "a@lc" then Account(7) else NoAccount;
    assert Lower("A@lc") == "a@lc" && Lower("a@lc") == "a@lc";
    assert Matched(db, 1, lookup) && Matched(db, 2, lookup);
    MatchedLinks(db, 1, lookup);
    MatchedLinks(db, 2, lookup);
    GateMeansAllLinked(db, order, lookup);
  }
}
