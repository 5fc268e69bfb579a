/**
 Joining, leaving and editing an activity: backend/app/features/activities/service.py, with the
 commits of its callers in router.py.

 A request to join is a process of several statements: it locks the activity's row, looks for the
 user's own row, counts the rows, and commits its insert. Statements see committed rows only (READ
 COMMITTED). Leaving needs no lock and may happen at any moment, and so may a crash. An edit or a
 cancellation writes the activity's row, so it waits for the row lock; it is one atomic step.
 */
module ActivityCapacity {
  import opened Prelude

  type ActivityId = int
  type UserId = int
  type RowId = nat
  type Time = int

  datatype Activity = Activity(start: Time, end: Option<Time>, cap: Option<int>, cancelled: bool)

  datatype Seat = Seat(activity: ActivityId, user: UserId)

  datatype Db = Db(activities: map<ActivityId, Activity>, seats: map<RowId, Seat>)

  /** The rows `activity_count` counts. */
  function Roster(db: Db, a: ActivityId): set<RowId> {
    set r | r in db.seats && db.seats[r].activity == a
  }

  predicate HasJoined(db: Db, a: ActivityId, u: UserId) {
    exists r :: r in db.seats && db.seats[r] == Seat(a, u)
  }

  predicate Open(db: Db, a: ActivityId) {
    a in db.activities && !db.activities[a].cancelled
  }

  /** Nobody sits twice. */
  ghost predicate SeatsUnique(db: Db) {
    forall r, q | r in db.seats && q in db.seats && db.seats[r] == db.seats[q] :: r == q
  }

  ghost predicate WithinCap(db: Db, a: ActivityId)
    requires a in db.activities
  {
    db.activities[a].cap.Some? ==> |Roster(db, a)| <= db.activities[a].cap.value
  }

  ghost predicate DbOk(db: Db) {
    SeatsUnique(db) && (forall a | a in db.activities :: WithinCap(db, a)) &&
    (forall r | r in db.seats :: db.seats[r].activity in db.activities) &&
    forall a | a in db.activities && db.activities[a].end.Some? :: db.activities[a].end.value > db.activities[a].start
  }

  // ----- the operations, one at a time -----

  datatype Outcome = Joined | AlreadyIn | NotFound | Full

  predicate IsFull(db: Db, a: ActivityId)
    requires a in db.activities
  {
    db.activities[a].cap.Some? && |Roster(db, a)| >= db.activities[a].cap.value
  }

  function JoinOutcome(db: Db, a: ActivityId, u: UserId): Outcome {
    if !Open(db, a) then NotFound
    else if HasJoined(db, a, u) then AlreadyIn
    else if IsFull(db, a) then Full
    else Joined
  }

  function Seated(db: Db, r: RowId, a: ActivityId, u: UserId): Db {
    db.(seats := db.seats[r := Seat(a, u)])
  }

  function Left(db: Db, a: ActivityId, u: UserId): Db {
    db.(seats := map r | r in db.seats && db.seats[r] != Seat(a, u) :: db.seats[r])
  }

  /** A field of a partial edit: absent, or present with its new value. */
  datatype Change<T> = Keep | To(value: T)

  datatype Changes = Changes(start: Change<Option<Time>>, end: Change<Option<Time>>, cap: Change<Option<int>>)

  /** `NullStart` is the failure an explicit null start ends in: a comparison or a NOT NULL column. */
  datatype EditError = EndNotAfterStart | BelowRoster | NullStart

  function EditedOr<T>(c: Change<T>, was: T): T {
    match c case Keep => was case To(v) => v
  }

  function Edited(db: Db, a: ActivityId, c: Changes): Result<Activity, EditError>
    requires a in db.activities
  {
    var was := db.activities[a];
    var start, end := EditedOr(c.start, Some(was.start)), EditedOr(c.end, was.end);
    if end.Some? && start == None then Err(NullStart)
    else if end.Some? && end.value <= start.value then Err(EndNotAfterStart)
    else if c.cap.To? && c.cap.value.Some? && c.cap.value.value < |Roster(db, a)| then Err(BelowRoster)
    else if start == None then Err(NullStart)
    else Ok(was.(start := start.value, end := end, cap := EditedOr(c.cap, was.cap)))
  }

  class Store {
    var activities: map<ActivityId, Activity>
    var seats: map<RowId, Seat>

    function Now(): Db
      reads this
    {
      Db(activities, seats)
    }

    method JoinActivity(a: ActivityId, u: UserId, newRow: RowId) returns (o: Outcome)
      requires newRow !in seats
      modifies this`seats
      ensures o == JoinOutcome(old(Now()), a, u)
      ensures Now() == if o == Joined then Seated(old(Now()), newRow, a, u) else old(Now())
    {
      if a !in activities || activities[a].cancelled {
        return NotFound;
      }
      if !HasJoined(Now(), a, u) {
        if activities[a].cap.Some? && |Roster(Now(), a)| >= activities[a].cap.value {
          return Full;
        }
        seats := seats[newRow := Seat(a, u)];
        return Joined;
      }
      return AlreadyIn;
    }

    /** False is the 404. */
    method LeaveActivity(a: ActivityId, u: UserId) returns (found: bool)
      requires SeatsUnique(Now())
      modifies this`seats
      ensures found == Open(old(Now()), a)
      ensures Now() == if found then Left(old(Now()), a, u) else old(Now())
    {
      if a !in activities || activities[a].cancelled {
        return false;
      }
      if HasJoined(Now(), a, u) {
        var r :| r in seats && seats[r] == Seat(a, u);
        LeftDropsRow(Now(), r, a, u);
        seats := seats - {r};
      } else {
        LeftDropsNothing(Now(), a, u);
      }
      return true;
    }

    method UpdateActivity(a: ActivityId, c: Changes) returns (r: Result<(), EditError>)
      requires a in activities
      modifies this`activities
      ensures r.Ok? <==> Edited(old(Now()), a, c).Ok?
      ensures r.Err? ==> Edited(old(Now()), a, c) == Err(r.error) && Now() == old(Now())
      ensures r.Ok? ==> Now() == old(Now()).(activities := old(activities)[a := Edited(old(Now()), a, c).value])
    {
      var was := activities[a];
      var start := EditedOr(c.start, Some(was.start));
      var end := EditedOr(c.end, was.end);
      if end.Some? {
        if start == None {
          return Err(NullStart);
        }
        if end.value <= start.value {
          return Err(EndNotAfterStart);
        }
      }
      if c.cap.To? && c.cap.value.Some? && c.cap.value.value < |Roster(Now(), a)| {
        return Err(BelowRoster);
      }
      if start == None {
        return Err(NullStart);
      }
      activities := activities[a := was.(start := start.value, end := end, cap := EditedOr(c.cap, was.cap))];
      return Ok(());
    }
  }

  // ----- requests to join, statement by statement -----

  datatype Pc = Lock | Check(cap: Option<int>) | Count(cap: Option<int>) | Commit | Done(outcome: Outcome) | Failed

  datatype Proc = Proc(activity: ActivityId, user: UserId, pc: Pc)

  datatype State = State(db: Db, locks: map<ActivityId, nat>, procs: seq<Proc>)

  predicate Finished(p: Proc) {
    p.pc.Done? || p.pc.Failed?
  }

  predicate Holds(p: Proc) {
    p.pc.Check? || p.pc.Count? || p.pc.Commit?
  }

  function Moved(s: State, i: nat, pc: Pc): State
    requires i < |s.procs|
  {
    s.(procs := s.procs[i := s.procs[i].(pc := pc)])
  }

  /** The end of a transaction releases its lock. */
  function Ended(s: State, i: nat, pc: Pc): State
    requires i < |s.procs|
  {
    Moved(s, i, pc).(locks := map a | a in s.locks && s.locks[a] != i :: s.locks[a])
  }

  ghost predicate Step(s: State, i: nat, s': State) {
    i < |s.procs| &&
    var p := s.procs[i];
    match p.pc
    case Lock =>
      p.activity !in s.locks &&
      s' == if !Open(s.db, p.activity) then Ended(s, i, Done(NotFound))
            else Moved(s, i, Check(s.db.activities[p.activity].cap)).(locks := s.locks[p.activity := i])
    case Check(cap) =>
      s' == if HasJoined(s.db, p.activity, p.user) then Ended(s, i, Done(AlreadyIn)) else Moved(s, i, Count(cap))
    case Count(cap) =>
      s' == if cap.Some? && |Roster(s.db, p.activity)| >= cap.value then Ended(s, i, Done(Full))
        else Moved(s, i, Commit)
    case Commit =>
      // The unique index on (activity, user) has the last word.
      if HasJoined(s.db, p.activity, p.user) then s' == Ended(s, i, Failed)
      else exists r :: r !in s.db.seats && s' == Ended(s, i, Done(Joined)).(db := Seated(s.db, r, p.activity, p.user))
    case _ => false
  }

  ghost predicate Statement(s: State, s': State) {
    exists i: nat :: Step(s, i, s')
  }

  ghost predicate Crash(s: State, i: nat, s': State) {
    i < |s.procs| && !Finished(s.procs[i]) && s' == Ended(s, i, Failed)
  }

  ghost predicate Arrive(s: State, a: ActivityId, u: UserId, s': State) {
    s' == s.(procs := s.procs + [Proc(a, u, Lock)])
  }

  ghost predicate Leave(s: State, a: ActivityId, u: UserId, s': State) {
    s' == s.(db := Left(s.db, a, u))
  }

  /** An activity and its creator's seat are one commit; a limit is at least 2. */
  ghost predicate Create(s: State, a: ActivityId, act: Activity, u: UserId, r: RowId, s': State) {
    a !in s.db.activities && a !in s.locks && r !in s.db.seats && !act.cancelled &&
    (act.cap.Some? ==> act.cap.value >= 2) && (act.end.Some? ==> act.end.value > act.start) &&
    s' == s.(db := Db(s.db.activities[a := act], s.db.seats[r := Seat(a, u)]))
  }

  ghost predicate Edit(s: State, a: ActivityId, c: Changes, s': State) {
    Open(s.db, a) && a !in s.locks && Edited(s.db, a, c).Ok? &&
    s' == s.(db := s.db.(activities := s.db.activities[a := Edited(s.db, a, c).value]))
  }

  ghost predicate Cancel(s: State, a: ActivityId, s': State) {
    Open(s.db, a) && a !in s.locks &&
    s' == s.(db := s.db.(activities := s.db.activities[a := s.db.activities[a].(cancelled := true)]))
  }

  ghost predicate Next(s: State, s': State) {
    Statement(s, s') || (exists i: nat :: Crash(s, i, s')) || (exists a, u :: Arrive(s, a, u, s')) ||
    (exists a, u :: Leave(s, a, u, s')) || (exists a, act, u, r :: Create(s, a, act, u, r, s')) ||
    (exists a, c :: Edit(s, a, c, s')) || (exists a :: Cancel(s, a, s'))
  }

  ghost predicate Run(trace: seq<State>) {
    |trace| > 0 && DbOk(trace[0].db) && trace[0].locks == map[] && trace[0].procs == [] &&
    forall k | 0 <= k < |trace| - 1 :: Next(trace[k], trace[k + 1])
  }

  // ----- the invariant -----

  ghost predicate LocksMatch(s: State) {
    (forall a | a in s.locks :: s.locks[a] < |s.procs| && Holds(s.procs[s.locks[a]]) &&
       s.procs[s.locks[a]].activity == a) &&
    forall i | 0 <= i < |s.procs| && Holds(s.procs[i]) ::
      s.procs[i].activity in s.locks && s.locks[s.procs[i].activity] == i
  }

  ghost predicate ProcOk(db: Db, p: Proc) {
    match p.pc
    case Check(cap) => Open(db, p.activity) && db.activities[p.activity].cap == cap
    case Count(cap) =>
      Open(db, p.activity) && db.activities[p.activity].cap == cap && !HasJoined(db, p.activity, p.user)
    case Commit => Open(db, p.activity) && !IsFull(db, p.activity) && !HasJoined(db, p.activity, p.user)
    case _ => true
  }

  ghost predicate Inv(s: State) {
    DbOk(s.db) && LocksMatch(s) && forall i | 0 <= i < |s.procs| :: ProcOk(s.db, s.procs[i])
  }

  lemma SeatedRoster(db: Db, r: RowId, a: ActivityId, u: UserId, b: ActivityId)
    requires r !in db.seats
    ensures Roster(Seated(db, r, a, u), b) == if a == b then Roster(db, b) + {r} else Roster(db, b)
    ensures |Roster(Seated(db, r, a, u), b)| == if a == b then |Roster(db, b)| + 1 else |Roster(db, b)|
  {
    var e := Seated(db, r, a, u);
    assert forall q: RowId :: q in Roster(e, b) <==> q in Roster(db, b) || (a == b && q == r);
    assert Roster(e, b) == if a == b then Roster(db, b) + {r} else Roster(db, b);
  }

  lemma SeatedKeepsOk(db: Db, r: RowId, a: ActivityId, u: UserId)
    requires DbOk(db) && r !in db.seats && a in db.activities && !IsFull(db, a) && !HasJoined(db, a, u)
    ensures DbOk(Seated(db, r, a, u))
  {
    var e := Seated(db, r, a, u);
    forall b | b in e.activities ensures WithinCap(e, b) {
      assert WithinCap(db, b);
      SeatedRoster(db, r, a, u, b);
    }
    assert forall q | q in db.seats :: db.seats[q] != Seat(a, u);
  }

  lemma LeftDropsRow(db: Db, r: RowId, a: ActivityId, u: UserId)
    requires SeatsUnique(db) && r in db.seats && db.seats[r] == Seat(a, u)
    ensures Left(db, a, u).seats == db.seats - {r}
  {
  }

  lemma LeftDropsNothing(db: Db, a: ActivityId, u: UserId)
    requires !HasJoined(db, a, u)
    ensures Left(db, a, u) == db
  {
  }

  lemma LeftShrinks(db: Db, a: ActivityId, u: UserId, b: ActivityId)
    ensures Roster(Left(db, a, u), b) <= Roster(db, b)
    ensures |Roster(Left(db, a, u), b)| <= |Roster(db, b)|
  {
    var s, t := Roster(Left(db, a, u), b), Roster(db, b);
    assert forall q: RowId | q in s :: q in t;
    assert t == s + (t - s);
  }

  lemma LeftKeepsOk(db: Db, a: ActivityId, u: UserId)
    requires DbOk(db)
    ensures DbOk(Left(db, a, u))
  {
    var e := Left(db, a, u);
    forall b | b in e.activities ensures WithinCap(e, b) {
      assert WithinCap(db, b);
      LeftShrinks(db, a, u, b);
    }
  }

  lemma LocksAfterEnd(s: State, i: nat, pc: Pc)
    requires LocksMatch(s) && i < |s.procs| && (pc.Done? || pc.Failed?)
    ensures LocksMatch(Ended(s, i, pc))
  {
  }

  lemma CommitKeepsInv(s: State, i: nat, r: RowId)
    requires Inv(s) && i < |s.procs| && s.procs[i].pc.Commit? && r !in s.db.seats
    ensures Inv(Ended(s, i, Done(Joined)).(db := Seated(s.db, r, s.procs[i].activity, s.procs[i].user)))
  {
    var p := s.procs[i];
    var db' := Seated(s.db, r, p.activity, p.user);
    assert ProcOk(s.db, p);
    SeatedKeepsOk(s.db, r, p.activity, p.user);
    LocksAfterEnd(s, i, Done(Joined));
    forall j | 0 <= j < |s.procs| && j != i ensures ProcOk(db', s.procs[j]) {
      var q := s.procs[j];
      assert ProcOk(s.db, q);
      if Holds(q) {
        assert q.activity != p.activity;
        SeatedRoster(s.db, r, p.activity, p.user, q.activity);
      }
    }
  }

  lemma StepKeepsInv(s: State, i: nat, s': State)
    requires Inv(s) && Step(s, i, s')
    ensures Inv(s')
  {
    var p := s.procs[i];
    assert ProcOk(s.db, p);
    if p.pc.Commit? {
      var r :| r !in s.db.seats && s' == Ended(s, i, Done(Joined)).(db := Seated(s.db, r, p.activity, p.user));
      CommitKeepsInv(s, i, r);
    } else if Finished(s'.procs[i]) {
      LocksAfterEnd(s, i, s'.procs[i].pc);
    }
  }

  lemma LeaveKeepsInv(s: State, a: ActivityId, u: UserId, s': State)
    requires Inv(s) && Leave(s, a, u, s')
    ensures Inv(s')
  {
    LeftKeepsOk(s.db, a, u);
    forall i | 0 <= i < |s'.procs| ensures ProcOk(s'.db, s'.procs[i]) {
      var p := s.procs[i];
      assert ProcOk(s.db, p);
      LeftShrinks(s.db, a, u, p.activity);
    }
  }

  lemma EditKeepsInv(s: State, a: ActivityId, act: Activity, s': State)
    requires Inv(s) && a in s.db.activities && a !in s.locks
    requires s' == s.(db := s.db.(activities := s.db.activities[a := act]))
    requires act.end.Some? ==> act.end.value > act.start
    requires act.cap.Some? ==> |Roster(s.db, a)| <= act.cap.value
    ensures Inv(s')
  {
    forall b | b in s'.db.activities ensures WithinCap(s'.db, b) {
      assert WithinCap(s.db, b) && Roster(s'.db, b) == Roster(s.db, b);
    }
    forall i | 0 <= i < |s'.procs| ensures ProcOk(s'.db, s'.procs[i]) {
      var p := s.procs[i];
      assert ProcOk(s.db, p) && Roster(s'.db, p.activity) == Roster(s.db, p.activity);
      assert Holds(p) ==> p.activity != a;
    }
  }

  lemma CreateKeepsInv(s: State, a: ActivityId, act: Activity, u: UserId, r: RowId, s': State)
    requires Inv(s) && Create(s, a, act, u, r, s')
    ensures Inv(s')
  {
    assert forall q | q in s.db.seats :: s.db.seats[q].activity != a;
    assert Roster(s'.db, a) == {r};
    forall b | b in s.db.activities ensures Roster(s'.db, b) == Roster(s.db, b) && WithinCap(s.db, b) {
      assert forall q: RowId :: q in Roster(s'.db, b) <==> q in Roster(s.db, b);
    }
    forall b | b in s'.db.activities ensures WithinCap(s'.db, b) {}
    forall i | 0 <= i < |s'.procs| ensures ProcOk(s'.db, s'.procs[i]) {
      assert ProcOk(s.db, s.procs[i]);
    }
  }

  lemma NextKeepsInv(s: State, s': State)
    requires Inv(s) && Next(s, s')
    ensures Inv(s')
  {
    if Statement(s, s') {
      var i: nat :| Step(s, i, s');
      StepKeepsInv(s, i, s');
    } else if i: nat :| Crash(s, i, s') {
      LocksAfterEnd(s, i, Failed);
    } else if a, u :| Leave(s, a, u, s') {
      LeaveKeepsInv(s, a, u, s');
    } else if a, act, u, r :| Create(s, a, act, u, r, s') {
      CreateKeepsInv(s, a, act, u, r, s');
    } else if a, c :| Edit(s, a, c, s') {
      assert WithinCap(s.db, a);
      EditKeepsInv(s, a, s'.db.activities[a], s');
    } else if a :| Cancel(s, a, s') {
      assert WithinCap(s.db, a);
      EditKeepsInv(s, a, s'.db.activities[a], s');
    }
  }

  lemma {:induction false} RunKeepsInv(trace: seq<State>, k: nat)
    requires Run(trace) && k < |trace|
    ensures Inv(trace[k])
  {
    if k > 0 {
      RunKeepsInv(trace, k - 1);
      NextKeepsInv(trace[k - 1], trace[k]);
    }
  }

  // ----- results -----

  /** However joins, leaves, edits and crashes interleave, no activity is over its limit, nobody is
      on a roster twice, and a join never runs into the unique index. */
  lemma NeverOverCapacity(trace: seq<State>, k: nat, a: ActivityId)
    requires Run(trace) && k < |trace| && a in trace[k].db.activities
    ensures WithinCap(trace[k].db, a) && SeatsUnique(trace[k].db)
    ensures forall i | 0 <= i < |trace[k].procs| && trace[k].procs[i].pc.Commit? ::
              !HasJoined(trace[k].db, trace[k].procs[i].activity, trace[k].procs[i].user)
  {
    RunKeepsInv(trace, k);
    forall i | 0 <= i < |trace[k].procs| && trace[k].procs[i].pc.Commit?
      ensures !HasJoined(trace[k].db, trace[k].procs[i].activity, trace[k].procs[i].user)
    {
      assert ProcOk(trace[k].db, trace[k].procs[i]);
    }
  }

  /** Linearizable: a request changes nothing until the statement that answers it, and that
      statement does and answers what the whole request would have done, run alone at that moment. */
  lemma JoinsAreAtomic(trace: seq<State>, k: nat, i: nat, s': State)
    requires Run(trace) && k < |trace| && Step(trace[k], i, s')
    ensures !s'.procs[i].pc.Done? ==> s'.db == trace[k].db
    ensures s'.procs[i].pc.Done? ==>
              var db, p, o := trace[k].db, trace[k].procs[i], s'.procs[i].pc.outcome;
              o == JoinOutcome(db, p.activity, p.user) &&
              (o != Joined ==> s'.db == db) &&
              (o == Joined ==> exists r :: r !in db.seats && s'.db == Seated(db, r, p.activity, p.user))
  {
    RunKeepsInv(trace, k);
    assert ProcOk(trace[k].db, trace[k].procs[i]);
  }

  /** A join is refused as full only while it holds the lock on an activity whose roster is exactly
      at its limit, and the user is not on it. */
  lemma RefusedOnlyWhenFull(trace: seq<State>, k: nat, i: nat, s': State)
    requires Run(trace) && k < |trace| && Step(trace[k], i, s') && s'.procs[i].pc == Done(Full)
    ensures var s, p := trace[k], trace[k].procs[i];
            p.activity in s.locks && s.locks[p.activity] == i &&
            Open(s.db, p.activity) && !HasJoined(s.db, p.activity, p.user) &&
            s.db.activities[p.activity].cap == Some(|Roster(s.db, p.activity)|)
  {
    RunKeepsInv(trace, k);
    var s, p := trace[k], trace[k].procs[i];
    assert ProcOk(s.db, p) && Holds(p);
    assert WithinCap(s.db, p.activity);
  }

  lemma StepFrom(s: State, i: nat) returns (s': State)
    requires Inv(s) && i < |s.procs| && !Finished(s.procs[i])
    requires s.procs[i].pc.Lock? ==> s.procs[i].activity !in s.locks
    ensures Step(s, i, s')
  {
    var p := s.procs[i];
    assert ProcOk(s.db, p);
    match p.pc
    case Lock =>
      s' := if !Open(s.db, p.activity) then Ended(s, i, Done(NotFound))
      else Moved(s, i, Check(s.db.activities[p.activity].cap)).(locks := s.locks[p.activity := i]);
    case Check(cap) =>
      s' := if HasJoined(s.db, p.activity, p.user) then Ended(s, i, Done(AlreadyIn)) else Moved(s, i, Count(cap));
    case Count(cap) =>
      s' := if cap.Some? && |Roster(s.db, p.activity)| >= cap.value then Ended(s, i, Done(Full))
        else Moved(s, i, Commit);
    case Commit =>
      var r := FreshNat(s.db.seats.Keys);
      s' := Ended(s, i, Done(Joined)).(db := Seated(s.db, r, p.activity, p.user));
  }

  /** Request `i` waits for the row lock that request `j` holds. */
  predicate WaitsFor(s: State, i: nat, j: nat) {
    i < |s.procs| && s.procs[i].pc.Lock? && s.procs[i].activity in s.locks && s.locks[s.procs[i].activity] == j
  }

  /** An unfinished request can move, or waits for one that can. */
  lemma MoverExists(s: State, i: nat) returns (j: nat, s': State)
    requires Inv(s) && i < |s.procs| && !Finished(s.procs[i])
    ensures (j == i || WaitsFor(s, i, j)) && Step(s, j, s')
  {
    var p := s.procs[i];
    j := if p.pc.Lock? && p.activity in s.locks then s.locks[p.activity] else i;
    s' := StepFrom(s, j);
  }

  /** No deadlock: an unfinished request can take its next statement, or the holder of the lock it
      waits for can. */
  lemma NoDeadlock(trace: seq<State>, k: nat, i: nat) returns (j: nat, s': State)
    requires Run(trace) && k < |trace| && i < |trace[k].procs| && !Finished(trace[k].procs[i])
    ensures (j == i || WaitsFor(trace[k], i, j)) && Step(trace[k], j, s')
  {
    RunKeepsInv(trace, k);
    j, s' := MoverExists(trace[k], i);
  }

  function Rank(p: Proc): nat {
    match p.pc
    case Lock => 4
    case Check(_) => 3
    case Count(_) => 2
    case Commit => 1
    case _ => 0
  }

  function Work(procs: seq<Proc>): nat {
    SumOf(Rank, procs)
  }

  lemma StepUsesWork(s: State, i: nat, s': State)
    requires Step(s, i, s')
    ensures Work(s'.procs) < Work(s.procs)
  {
    SumOfUpdate(Rank, s.procs, i, s'.procs[i]);
    assert s'.procs == s.procs[i := s'.procs[i]];
  }

  ghost predicate Quiet(s: State) {
    forall i | 0 <= i < |s.procs| :: Finished(s.procs[i])
  }

  ghost predicate CanStep(s: State) {
    exists s' :: Statement(s, s')
  }

  ghost predicate StepsOnly(trace: seq<State>) {
    |trace| > 0 && forall k | 0 <= k < |trace| - 1 :: Statement(trace[k], trace[k + 1])
  }

  /** However the open joins are scheduled, they take at most `Work` statements in all, and while one
      of them is unfinished another statement is possible. */
  lemma {:induction false} RequestsFinish(trace: seq<State>)
    requires StepsOnly(trace) && Inv(trace[0])
    ensures |trace| - 1 + Work(trace[|trace| - 1].procs) <= Work(trace[0].procs)
    ensures Inv(trace[|trace| - 1])
    ensures Quiet(trace[|trace| - 1]) || CanStep(trace[|trace| - 1])
  {
    hide Inv, Step, Work;
    var n := |trace| - 1;
    if n > 0 {
      RequestsFinish(trace[..n]);
      assert Statement(trace[n - 1], trace[n]);
      var i: nat :| Step(trace[n - 1], i, trace[n]);
      StepUsesWork(trace[n - 1], i, trace[n]);
      StepKeepsInv(trace[n - 1], i, trace[n]);
    }
    var s := trace[n];
    if !Quiet(s) {
      var i :| 0 <= i < |s.procs| && !Finished(s.procs[i]);
      var j, s' := MoverExists(s, i);
      assert Statement(s, s');
    }
  }

  /** No statement ends a join in an error. */
  lemma NoStatementFails(trace: seq<State>, k: nat, i: nat, s': State)
    requires Run(trace) && k < |trace| && Step(trace[k], i, s')
    ensures !s'.procs[i].pc.Failed?
  {
    RunKeepsInv(trace, k);
    assert ProcOk(trace[k].db, trace[k].procs[i]);
  }

  lemma {:induction false} StepsKeepUnfailed(trace: seq<State>, i: nat)
    requires StepsOnly(trace) && Inv(trace[0]) && i < |trace[0].procs| && !trace[0].procs[i].pc.Failed?
    ensures var e := trace[|trace| - 1]; Inv(e) && i < |e.procs| && !e.procs[i].pc.Failed?
  {
    hide Inv;
    var n := |trace| - 1;
    if n > 0 {
      StepsKeepUnfailed(trace[..n], i);
      assert Statement(trace[n - 1], trace[n]);
      var j: nat :| Step(trace[n - 1], j, trace[n]);
      StepKeepsInv(trace[n - 1], j, trace[n]);
      if trace[n - 1].procs[j].pc.Commit? { CommitIsFree(trace[n - 1], j); }
    }
  }

  lemma CommitIsFree(s: State, j: nat)
    requires Inv(s) && j < |s.procs| && s.procs[j].pc.Commit?
    ensures !HasJoined(s.db, s.procs[j].activity, s.procs[j].user)
  {
    assert ProcOk(s.db, s.procs[j]);
  }

  /** When the open joins have run to their ends without a crash, each has been answered. */
  lemma JoinsAnswered(trace: seq<State>, i: nat)
    requires StepsOnly(trace) && Inv(trace[0]) && i < |trace[0].procs| && !trace[0].procs[i].pc.Failed?
    requires Quiet(trace[|trace| - 1])
    ensures i < |trace[|trace| - 1].procs| && trace[|trace| - 1].procs[i].pc.Done?
  {
    StepsKeepUnfailed(trace, i);
  }

  /** The answer to a join, on the columns. */
  lemma AnswerIs(db: Db, a: ActivityId, u: UserId)
    ensures var o := JoinOutcome(db, a, u);
            var joined := exists r :: r in db.seats && db.seats[r].activity == a && db.seats[r].user == u;
            (o == NotFound <==> a !in db.activities || db.activities[a].cancelled) &&
            (o == AlreadyIn <==> a in db.activities && !db.activities[a].cancelled && joined) &&
            (o == Full <==> a in db.activities && !db.activities[a].cancelled && !joined &&
                            db.activities[a].cap.Some? &&
                            |set r | r in db.seats && db.seats[r].activity == a| >= db.activities[a].cap.value)
  {
    assert HasJoined(db, a, u) <==> exists r :: r in db.seats && db.seats[r].activity == a && db.seats[r].user == u by {
      if r :| r in db.seats && db.seats[r].activity == a && db.seats[r].user == u { assert db.seats[r] == Seat(a, u); }
    }
    assert Roster(db, a) == set r | r in db.seats && db.seats[r].activity == a;
  }

  // ----- what an edit does -----

  /** An accepted edit stores each field that is present, keeps each that is absent, and nothing else. */
  lemma EditStores(db: Db, a: ActivityId, c: Changes)
    requires a in db.activities && Edited(db, a, c).Ok?
    ensures var was, act := db.activities[a], Edited(db, a, c).value;
            (c.start.To? ==> c.start.value == Some(act.start)) && (c.start.Keep? ==> act.start == was.start) &&
            (c.end.To? ==> act.end == c.end.value) && (c.end.Keep? ==> act.end == was.end) &&
            (c.cap.To? ==> act.cap == c.cap.value) && (c.cap.Keep? ==> act.cap == was.cap) &&
            act.cancelled == was.cancelled
  {
  }

  /** The start and end an edit would leave. */
  predicate EndsBeforeStart(was: Activity, c: Changes) {
    (c.end.To? && c.end.value.Some? &&
     ((c.start.To? && c.start.value.Some? && c.end.value.value <= c.start.value.value) ||
      (c.start.Keep? && c.end.value.value <= was.start))) ||
    (c.end.Keep? && was.end.Some? && c.start.To? && c.start.value.Some? && was.end.value <= c.start.value.value) ||
    (c.end.Keep? && c.start.Keep? && was.end.Some? && was.end.value <= was.start)
  }

  predicate TooFewSeats(db: Db, a: ActivityId, c: Changes) {
    c.cap.To? && c.cap.value.Some? && c.cap.value.value < |set r | r in db.seats && db.seats[r].activity == a|
  }

  /** When an edit is refused, and with which error: an end not after the start comes before a limit
      below the roster; a null start fails before both when the activity will have an end, else after. */
  lemma EditRefusedIff(db: Db, a: ActivityId, c: Changes)
    requires a in db.activities
    ensures var was, e := db.activities[a], Edited(db, a, c);
            var nullStart := c.start == To(None);
            var ends := (c.end.To? && c.end.value.Some?) || (c.end.Keep? && was.end.Some?);
            (e == Err(EndNotAfterStart) <==> EndsBeforeStart(was, c)) &&
            (e == Err(BelowRoster) <==> !EndsBeforeStart(was, c) && !(nullStart && ends) && TooFewSeats(db, a, c)) &&
            (e == Err(NullStart) <==> nullStart && (ends || !TooFewSeats(db, a, c)))
  {
    assert Roster(db, a) == set r | r in db.seats && db.seats[r].activity == a;
  }

  /** What others do meanwhile: take a seat in a new row, or give one up. */
  datatype Event = Sit(row: RowId, seat: Seat) | Stand(seat: Seat)

  function After(db: Db, e: Event): Db {
    match e
    case Sit(row, seat) => Seated(db, row, seat.activity, seat.user)
    case Stand(seat) => Left(db, seat.activity, seat.user)
  }

  function AfterAll(db: Db, events: seq<Event>): Db
    decreases |events|
  {
    if events == [] then db else AfterAll(After(db, events[0]), events[1..])
  }

  /** The events concern other seats, and other rows than `r`. */
  ghost predicate Others(events: seq<Event>, r: RowId, mine: Seat) {
    forall i | 0 <= i < |events| :: events[i].seat != mine && (events[i].Sit? ==> events[i].row != r)
  }

  lemma SeatedCommutes(db: Db, r: RowId, mine: Seat, e: Event)
    requires Others([e], r, mine) && r !in db.seats
    ensures After(Seated(db, r, mine.activity, mine.user), e) == Seated(After(db, e), r, mine.activity, mine.user)
    ensures r !in After(db, e).seats
  {
    assert [e][0] == e;
    var d := After(Seated(db, r, mine.activity, mine.user), e);
    assert d.seats == Seated(After(db, e), r, mine.activity, mine.user).seats;
  }

  lemma NotJoinedAfter(db: Db, r: RowId, mine: Seat, e: Event)
    requires Others([e], r, mine) && !HasJoined(db, mine.activity, mine.user)
    ensures !HasJoined(After(db, e), mine.activity, mine.user)
  {
    assert [e][0] == e;
    assert forall q | q in db.seats :: db.seats[q] != mine;
  }

  /** Leaving undoes joining: whoever else came and went in between, the tables end as if the user had
      never been there. */
  lemma {:induction false} LeaveUndoesJoin(db: Db, r: RowId, a: ActivityId, u: UserId, events: seq<Event>)
    requires r !in db.seats && !HasJoined(db, a, u) && Others(events, r, Seat(a, u))
    ensures Left(AfterAll(Seated(db, r, a, u), events), a, u) == AfterAll(db, events)
    decreases |events|
  {
    if events == [] {
      assert forall q | q in db.seats :: db.seats[q] != Seat(a, u);
      assert Left(Seated(db, r, a, u), a, u).seats == db.seats;
    } else {
      var e := events[0];
      assert Others([e], r, Seat(a, u));
      SeatedCommutes(db, r, Seat(a, u), e);
      NotJoinedAfter(db, r, Seat(a, u), e);
      hide Seated, Left, After, HasJoined;
      LeaveUndoesJoin(After(db, e), r, a, u, events[1..]);
    }
  }
}
