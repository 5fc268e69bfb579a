/**
 The retention purge of backend/app/shared/message_retention.py over the tables of
 backend/app/models/messaging.py and social.py, with the foreign-key actions declared there. Every
 batch is committed on its own. Times are microseconds. Nothing else writes during a run.
 */
module Retention {
  import opened Prelude

  type MessageId = int
  type UserId = int
  type Time = int

  datatype Message = Message(body: string, deletedAt: Option<Time>, replyTo: Option<MessageId>)

  datatype Edit = Edit(message: MessageId, previous: string, editedAt: Time)

  /** A member's read and delivery boundary. */
  datatype Boundary = Boundary(lastRead: Option<MessageId>, lastDelivered: Option<MessageId>)

  /** `snapshot` is the text copied from the message when it was reported. */
  datatype Report = Report(message: Option<MessageId>, snapshot: Option<string>)

  datatype Db = Db(
    messages: map<MessageId, Message>,
    edits: map<int, Edit>,
    reactions: map<(MessageId, UserId), string>,
    members: map<(int, UserId), Boundary>,
    reports: map<int, Report>)

  predicate Resolves(db: Db, ref: Option<MessageId>) {
    ref.Some? ==> ref.value in db.messages
  }

  ghost predicate RefsOk(db: Db) {
    (forall m | m in db.messages :: Resolves(db, db.messages[m].replyTo)) &&
    (forall e | e in db.edits :: db.edits[e].message in db.messages) &&
    (forall r | r in db.reactions :: r.0 in db.messages) &&
    (forall k | k in db.members :: Resolves(db, db.members[k].lastRead) && Resolves(db, db.members[k].lastDelivered)) &&
    forall r | r in db.reports :: Resolves(db, db.reports[r].message)
  }

  predicate IsEligible(msg: Message, cutoff: Time) {
    msg.deletedAt.Some? && msg.deletedAt.value < cutoff
  }

  function Eligible(db: Db, cutoff: Time): set<MessageId> {
    set m | m in db.messages && IsEligible(db.messages[m], cutoff)
  }

  /** ON DELETE SET NULL. */
  function Nulled(ref: Option<MessageId>, gone: set<MessageId>): Option<MessageId> {
    if ref.Some? && ref.value in gone then None else ref
  }

  function CutMessage(msg: Message, gone: set<MessageId>): Message {
    msg.(replyTo := Nulled(msg.replyTo, gone))
  }

  function CutBoundary(b: Boundary, gone: set<MessageId>): Boundary {
    Boundary(Nulled(b.lastRead, gone), Nulled(b.lastDelivered, gone))
  }

  function CutReport(r: Report, gone: set<MessageId>): Report {
    r.(message := Nulled(r.message, gone))
  }

  /** `DELETE FROM messages WHERE id IN gone`, with everything the foreign keys do. */
  function Without(db: Db, gone: set<MessageId>): Db {
    Db(map m | m in db.messages && m !in gone :: CutMessage(db.messages[m], gone),
       map e | e in db.edits && db.edits[e].message !in gone :: db.edits[e],
       map r | r in db.reactions && r.0 !in gone :: db.reactions[r],
       map k | k in db.members :: CutBoundary(db.members[k], gone),
       map r | r in db.reports :: CutReport(db.reports[r], gone))
  }

  function OldEdits(db: Db, cutoff: Time): set<int> {
    set e | e in db.edits && db.edits[e].editedAt < cutoff
  }

  function WithoutOldEdits(db: Db, cutoff: Time): Db {
    db.(edits := db.edits - OldEdits(db, cutoff))
  }

  /** The whole purge as one transformation. */
  function Purged(db: Db, cutoff: Time): Db {
    WithoutOldEdits(Without(db, Eligible(db, cutoff)), cutoff)
  }

  const DAY := 24 * 60 * 60 * 1_000_000

  datatype Summary = Summary(cutoff: Time, eligible: nat, purged: nat, editsPurged: nat, sample: seq<MessageId>)

  datatype Error = BadRetention | BadBatchSize

  /** `ORDER BY deleted_at LIMIT n` over the eligible rows; ties come in any order. */
  ghost predicate IsBatch(db: Db, cutoff: Time, n: nat, ids: seq<MessageId>) {
    (forall i, j | 0 <= i < j < |ids| :: ids[i] != ids[j]) &&
    (forall i | 0 <= i < |ids| :: ids[i] in Eligible(db, cutoff)) &&
    (forall i, j | 0 <= i < j < |ids| :: DeletedAt(db, ids[i]) <= DeletedAt(db, ids[j])) &&
    (forall i, m | 0 <= i < |ids| && m in Eligible(db, cutoff) && m !in ids ::
       DeletedAt(db, ids[i]) <= DeletedAt(db, m)) &&
    |ids| <= n && (|ids| < n ==> forall m | m in Eligible(db, cutoff) :: m in ids)
  }

  function DeletedAt(db: Db, m: MessageId): Time {
    if m in db.messages && db.messages[m].deletedAt.Some? then db.messages[m].deletedAt.value else 0
  }

  class Store {
    var messages: map<MessageId, Message>
    var edits: map<int, Edit>
    var reactions: map<(MessageId, UserId), string>
    var members: map<(int, UserId), Boundary>
    var reports: map<int, Report>

    function Now(): Db
      reads this
    {
      Db(messages, edits, reactions, members, reports)
    }

    /** The SELECT of one batch. */
    method SelectOldest(cutoff: Time, n: nat) returns (ids: seq<MessageId>)
      ensures IsBatch(Now(), cutoff, n, ids)
    {
      var db := Now();
      ids := [];
      var rest := Eligible(db, cutoff);
      while |ids| < n && rest != {}
        invariant rest == Eligible(db, cutoff) - (set m | m in ids)
        invariant IsBatch(db, cutoff, |ids|, ids)
        invariant |ids| <= n
        decreases n - |ids|
      {
        OldestExists(db, rest);
        var m :| m in rest && forall o | o in rest :: DeletedAt(db, m) <= DeletedAt(db, o);
        ids := ids + [m];
        rest := rest - {m};
      }
      forall m: MessageId | m in Eligible(db, cutoff) && rest == {} ensures m in ids {
        assert m !in rest;
      }
    }

    /** One row goes; each table that refers to it does what its foreign key says. */
    method DeleteMessage(m: MessageId)
      modifies this
      ensures Now() == Without(old(Now()), {m})
    {
      edits := map e | e in edits && edits[e].message != m :: edits[e];
      reactions := map r | r in reactions && r.0 != m :: reactions[r];
      members := map k | k in members ::
        Boundary(if members[k].lastRead == Some(m) then None else members[k].lastRead,
                 if members[k].lastDelivered == Some(m) then None else members[k].lastDelivered);
      reports := map r | r in reports :: if reports[r].message == Some(m) then reports[r].(message := None)
        else reports[r];
      messages := map x | x in messages && x != m ::
        if messages[x].replyTo == Some(m) then messages[x].(replyTo := None) else messages[x];
      WithoutOneMessage(old(Now()), m);
      WithoutOneReport(old(Now()), m);
      WithoutOneRow(old(Now()), m);
    }

    /** `DELETE ... WHERE id IN gone`, row by row in any order. */
    method DeleteMessages(gone: set<MessageId>)
      modifies this
      ensures Now() == Without(old(Now()), gone)
    {
      hide Without;
      ghost var db := Now();
      var todo := gone;
      WithoutNone(db);
      assert gone - todo == {};
      while todo != {}
        invariant todo <= gone && Now() == Without(db, gone - todo)
        decreases todo
      {
        SomeElement(todo);
        var m :| m in todo;
        WithoutTwice(db, gone - todo, {m});
        assert (gone - todo) + {m} == gone - (todo - {m});
        DeleteMessage(m);
        todo := todo - {m};
      }
      assert gone - todo == gone;
    }

    /** The `while True` loop: SELECT a batch, DELETE it, commit. */
    method PurgeInBatches(cutoff: Time, batchSize: int) returns (purged: nat)
      requires batchSize >= 1
      modifies this
      ensures Now() == Without(old(Now()), Eligible(old(Now()), cutoff))
      ensures purged == |Eligible(old(Now()), cutoff)|
    {
      ghost var db := Now();
      ghost var gone: set<MessageId> := {};
      purged := 0;
      WithoutNone(db);
      while true
        invariant Now() == Without(db, gone) && gone <= Eligible(db, cutoff) && purged == |gone|
        decreases |Eligible(db, cutoff) - gone|
      {
        hide Without, Eligible, IsEligible;
        var ids := SelectOldest(cutoff, batchSize);
        EligibleAfter(db, gone, cutoff);
        BatchIsEligible(Now(), cutoff, batchSize, ids);
        if ids == [] {
          NoneLeft(Eligible(db, cutoff), gone);
          break;
        }
        var batch := set m | m in ids;
        DeleteMessages(batch);
        WithoutTwice(db, gone, batch);
        SmallerRest(Eligible(db, cutoff), gone, batch);
        gone := gone + batch;
        purged := purged + |ids|;
      }
    }

    method PurgeSoftDeletedMessages(retentionDays: int, apply: bool, now: Time, batchSize: int, sampleLimit: nat)
      returns (r: Result<Summary, Error>)
      modifies this
      ensures r == Err(BadRetention) <==> retentionDays < 1
      ensures r == Err(BadBatchSize) <==> retentionDays >= 1 && batchSize < 1
      ensures Now() == if r.Ok? && apply then Purged(old(Now()), now - retentionDays * DAY) else old(Now())
      ensures r.Ok? ==>
                var db, s := old(Now()), r.value;
                s.cutoff == now - retentionDays * DAY && s.eligible == |Eligible(db, s.cutoff)| &&
                IsBatch(db, s.cutoff, sampleLimit, s.sample) &&
                s.purged == (if apply then s.eligible else 0) &&
                s.editsPurged == if apply then |StrayEdits(db, s.cutoff)| else 0
    {
      hide Without, Eligible, IsEligible, IsBatch;
      if retentionDays < 1 {
        return Err(BadRetention);
      }
      if batchSize < 1 {
        return Err(BadBatchSize);
      }
      var cutoff := now - retentionDays * DAY;
      var eligible := |Eligible(Now(), cutoff)|;
      var sample := SelectOldest(cutoff, sampleLimit);
      if !apply {
        return Ok(Summary(cutoff, eligible, 0, 0, sample));
      }
      StrayAfter(Now(), cutoff);
      var purged := PurgeInBatches(cutoff, batchSize);
      var stale := OldEdits(Now(), cutoff);
      edits := edits - stale;
      return Ok(Summary(cutoff, eligible, purged, |stale|, sample));
    }
  }

  /** Edits before the cutoff whose message stays: what the second pass finds. */
  function StrayEdits(db: Db, cutoff: Time): set<int> {
    set e | e in db.edits && db.edits[e].editedAt < cutoff && db.edits[e].message !in Eligible(db, cutoff)
  }

  lemma {:induction false} OldestExists(db: Db, s: set<MessageId>)
    requires s != {}
    ensures exists m :: m in s && forall o | o in s :: DeletedAt(db, m) <= DeletedAt(db, o)
  {
    SomeElement(s);
    var x :| x in s;
    if s != {x} {
      var t := s - {x};
      assert s == t + {x};
      OldestExists(db, t);
      var y :| y in t && forall o | o in t :: DeletedAt(db, y) <= DeletedAt(db, o);
      var z := if DeletedAt(db, x) <= DeletedAt(db, y) then x else y;
      forall o | o in s ensures DeletedAt(db, z) <= DeletedAt(db, o) { assert o == x || o in t; }
    }
  }

  lemma BatchIsEligible(db: Db, cutoff: Time, n: nat, ids: seq<MessageId>)
    requires IsBatch(db, cutoff, n, ids) && n > 0
    ensures ids == [] ==> Eligible(db, cutoff) == {}
    ensures var batch := set m | m in ids;
            batch <= Eligible(db, cutoff) && |batch| == |ids| && (ids != [] ==> batch != {})
  {
    var batch := set m | m in ids;
    DistinctSize(ids);
    forall m: MessageId | m in batch ensures m in Eligible(db, cutoff) {}
    if ids == [] {
      assert forall m: MessageId :: m !in Eligible(db, cutoff);
    } else {
      assert ids[0] in batch;
    }
  }

  lemma SmallerRest(all: set<MessageId>, gone: set<MessageId>, batch: set<MessageId>)
    requires batch != {} && batch <= all - gone
    ensures |all - (gone + batch)| < |all - gone| && |gone + batch| == |gone| + |batch|
  {
    assert all - (gone + batch) == (all - gone) - batch;
    assert gone !! batch;
  }

  lemma NoneLeft(all: set<MessageId>, gone: set<MessageId>)
    requires all - gone == {} && gone <= all
    ensures gone == all
  {
    forall m: MessageId | m in all ensures m in gone { assert m !in all - gone; }
  }

  lemma WithoutNone(db: Db)
    ensures Without(db, {}) == db
  {
    var e := Without(db, {});
    assert forall msg: Message :: CutMessage(msg, {}) == msg;
    assert forall b: Boundary :: CutBoundary(b, {}) == b;
    assert forall r: Report :: CutReport(r, {}) == r;
    hide CutMessage, CutBoundary, CutReport;
    assert e.messages == db.messages && e.edits == db.edits && e.reactions == db.reactions;
    assert e.members == db.members && e.reports == db.reports;
  }

  lemma WithoutOneMessage(db: Db, m: MessageId)
    ensures Without(db, {m}).messages == map x | x in db.messages && x != m ::
              if db.messages[x].replyTo == Some(m) then db.messages[x].(replyTo := None) else db.messages[x]
  {
    assert forall msg: Message :: CutMessage(msg, {m}) == if msg.replyTo == Some(m) then msg.(replyTo := None) else msg;
    hide CutMessage, CutBoundary, CutReport;
  }

  lemma WithoutOneReport(db: Db, m: MessageId)
    ensures Without(db, {m}).reports == map r | r in db.reports ::
              if db.reports[r].message == Some(m) then db.reports[r].(message := None) else db.reports[r]
  {
    assert forall r: Report :: CutReport(r, {m}) == if r.message == Some(m) then r.(message := None) else r;
    hide CutMessage, CutBoundary, CutReport;
  }

  lemma WithoutOneRow(db: Db, m: MessageId)
    ensures var e := Without(db, {m});
            e.edits == (map x | x in db.edits && db.edits[x].message != m :: db.edits[x]) &&
            e.reactions == (map r | r in db.reactions && r.0 != m :: db.reactions[r]) &&
            e.members == map k | k in db.members ::
              Boundary(if db.members[k].lastRead == Some(m) then None else db.members[k].lastRead,
                       if db.members[k].lastDelivered == Some(m) then None else db.members[k].lastDelivered)
  {
    hide CutMessage, CutReport;
  }

  lemma CutTwice(a: set<MessageId>, b: set<MessageId>)
    ensures forall msg: Message :: CutMessage(CutMessage(msg, a), b) == CutMessage(msg, a + b)
    ensures forall x: Boundary :: CutBoundary(CutBoundary(x, a), b) == CutBoundary(x, a + b)
    ensures forall r: Report :: CutReport(CutReport(r, a), b) == CutReport(r, a + b)
  {
  }

  /** Deleting in two batches is deleting at once. */
  lemma WithoutTwice(db: Db, a: set<MessageId>, b: set<MessageId>)
    ensures Without(Without(db, a), b) == Without(db, a + b)
  {
    var d, e := Without(Without(db, a), b), Without(db, a + b);
    CutTwice(a, b);
    hide CutMessage, CutBoundary, CutReport;
    assert d.messages == e.messages;
    assert d.edits == e.edits;
    assert d.reactions == e.reactions;
    assert d.members == e.members;
    assert d.reports == e.reports;
  }

  lemma EligibleAfter(db: Db, gone: set<MessageId>, cutoff: Time)
    ensures Eligible(Without(db, gone), cutoff) == Eligible(db, cutoff) - gone
  {
    forall m: MessageId ensures m in Eligible(Without(db, gone), cutoff) <==> m in Eligible(db, cutoff) - gone {}
  }

  lemma EligibleGrows(db: Db, earlier: Time, cutoff: Time)
    requires earlier <= cutoff
    ensures Eligible(db, earlier) <= Eligible(db, cutoff)
  {
    forall m: MessageId | m in Eligible(db, earlier) ensures m in Eligible(db, cutoff) {}
  }

  lemma StrayAfter(db: Db, cutoff: Time)
    ensures OldEdits(Without(db, Eligible(db, cutoff)), cutoff) == StrayEdits(db, cutoff)
  {
  }

  // ----- what the purge means -----

  /** Exactly the messages deleted before the cutoff go; an edit stays exactly when it is recent and
      its message stays; no text that stays is altered, nor any snapshot in a report. */
  lemma PurgeIsExact(db: Db, cutoff: Time)
    ensures var p := Purged(db, cutoff);
            (forall m :: m in p.messages <==>
               m in db.messages && (db.messages[m].deletedAt == None || db.messages[m].deletedAt.value >= cutoff)) &&
            (forall m | m in p.messages ::
               p.messages[m].body == db.messages[m].body && p.messages[m].deletedAt == db.messages[m].deletedAt) &&
            (forall e :: e in p.edits <==>
               e in db.edits && db.edits[e].editedAt >= cutoff &&
               (db.edits[e].message in db.messages ==> db.edits[e].message in p.messages)) &&
            (forall e | e in p.edits :: p.edits[e] == db.edits[e]) &&
            p.reports.Keys == db.reports.Keys &&
            forall r | r in db.reports :: p.reports[r].snapshot == db.reports[r].snapshot
  {
  }

  /** The rows a report counts and a batch or sample lists: deleted, and before the cutoff, in the order
      of their deletion, none older left out. */
  lemma BatchMeans(db: Db, cutoff: Time, n: nat, ids: seq<MessageId>)
    requires IsBatch(db, cutoff, n, ids)
    ensures Eligible(db, cutoff) ==
            set m | m in db.messages && db.messages[m].deletedAt.Some? && db.messages[m].deletedAt.value < cutoff
    ensures forall i | 0 <= i < |ids| :: ids[i] in db.messages && db.messages[ids[i]].deletedAt.Some? &&
                                         db.messages[ids[i]].deletedAt.value < cutoff
    ensures forall i, j | 0 <= i < j < |ids| ::
              ids[i] != ids[j] && db.messages[ids[i]].deletedAt.value <= db.messages[ids[j]].deletedAt.value
    ensures forall m | m in db.messages && db.messages[m].deletedAt.Some? && m !in ids &&
                       db.messages[m].deletedAt.value < cutoff ::
              |ids| == n && forall i | 0 <= i < |ids| ::
                db.messages[ids[i]].deletedAt.value <= db.messages[m].deletedAt.value
  {
    forall m: MessageId ensures m in Eligible(db, cutoff) <==>
      m in db.messages && db.messages[m].deletedAt.Some? && db.messages[m].deletedAt.value < cutoff {}
    forall i | 0 <= i < |ids| ensures ids[i] in db.messages && db.messages[ids[i]].deletedAt.Some? {
      assert ids[i] in Eligible(db, cutoff);
    }
  }

  /** No reply, edit, reaction, boundary or report is left pointing at a purged message, and a
      reference to a surviving one is kept. */
  lemma NothingDangles(db: Db, cutoff: Time)
    requires RefsOk(db)
    ensures var p := Purged(db, cutoff);
            RefsOk(p) &&
            (forall m | m in p.messages && Resolves(p, db.messages[m].replyTo) ::
               p.messages[m].replyTo == db.messages[m].replyTo) &&
            (forall r :: r in p.reactions <==> r in db.reactions && r.0 in p.messages) &&
            (forall r | r in p.reactions :: p.reactions[r] == db.reactions[r]) &&
            (forall k | k in db.members ::
               k in p.members &&
               (Resolves(p, db.members[k].lastRead) ==> p.members[k].lastRead == db.members[k].lastRead) &&
               (Resolves(p, db.members[k].lastDelivered) ==>
                  p.members[k].lastDelivered == db.members[k].lastDelivered)) &&
            forall r | r in db.reports && Resolves(p, db.reports[r].message) ::
              p.reports[r].message == db.reports[r].message
  {
  }

  /** A run that stopped after any number of batches, followed by a run with the same or a later
      cutoff, leaves what the later run alone would have left. */
  lemma InterruptedRunIsHarmless(db: Db, earlier: Time, cutoff: Time, gone: set<MessageId>)
    requires earlier <= cutoff && gone <= Eligible(db, earlier)
    ensures Purged(Without(db, gone), cutoff) == Purged(db, cutoff)
  {
    EligibleAfter(db, gone, cutoff);
    EligibleGrows(db, earlier, cutoff);
    WithoutTwice(db, gone, Eligible(db, cutoff) - gone);
    assert gone + (Eligible(db, cutoff) - gone) == Eligible(db, cutoff);
  }

  /** An earlier purge leaves no trace on a later one. */
  lemma PurgesCompose(db: Db, earlier: Time, cutoff: Time)
    requires earlier <= cutoff
    ensures Purged(Purged(db, earlier), cutoff) == Purged(db, cutoff)
  {
    var a, b := Eligible(db, earlier), Eligible(db, cutoff);
    var d := Without(db, a);
    EligibleAfter(db, a, cutoff);
    EligibleGrows(db, earlier, cutoff);
    assert Eligible(Purged(db, earlier), cutoff) == b - a;
    WithoutTwice(db, a, b - a);
    assert a + (b - a) == b;
    assert Purged(Purged(db, earlier), cutoff).edits == Purged(db, cutoff).edits;
    var e := Without(WithoutOldEdits(d, earlier), b - a);
    assert e == Without(d, b - a).(edits := e.edits);
  }

  function PurgedAt(db: Db, cutoffs: seq<Time>): Db {
    if cutoffs == [] then db else Purged(PurgedAt(db, cutoffs[..|cutoffs| - 1]), cutoffs[|cutoffs| - 1])
  }

  /** Purging on any schedule comes to the same as purging once, at the last cutoff. */
  lemma {:induction false} ScheduleIsLastPurge(db: Db, cutoffs: seq<Time>)
    requires cutoffs != [] && forall i, j | 0 <= i < j < |cutoffs| :: cutoffs[i] <= cutoffs[j]
    ensures PurgedAt(db, cutoffs) == Purged(db, cutoffs[|cutoffs| - 1])
  {
    var n := |cutoffs| - 1;
    if n > 0 {
      hide Purged;
      ScheduleIsLastPurge(db, cutoffs[..n]);
      PurgesCompose(db, cutoffs[n - 1], cutoffs[n]);
    }
  }

  /** `editsPurged` leaves out the history that went with its message: the count is all the history
      removed exactly when no purged message had any. */
  lemma EditsPurgedIsAllIff(db: Db, cutoff: Time)
    ensures |db.edits| - |Purged(db, cutoff).edits| == |StrayEdits(db, cutoff)| + |HistoryOf(db, Eligible(db, cutoff))|
    ensures |db.edits| - |Purged(db, cutoff).edits| == |StrayEdits(db, cutoff)| <==>
              forall e | e in db.edits :: db.edits[e].message !in Eligible(db, cutoff)
  {
    PurgedEdits(db, cutoff);
    hide *;
    var stray, history := StrayEdits(db, cutoff), HistoryOf(db, Eligible(db, cutoff));
    var all, left := db.edits.Keys, Purged(db, cutoff).edits.Keys;
    assert |stray + history| == |stray| + |history|;
    assert |all - (stray + history)| == |all| - |stray + history|;
    assert |history| == 0 <==> history == {};
  }

  lemma PurgedEdits(db: Db, cutoff: Time)
    ensures var stray, history := StrayEdits(db, cutoff), HistoryOf(db, Eligible(db, cutoff));
            stray !! history && stray + history <= db.edits.Keys &&
            Purged(db, cutoff).edits.Keys == db.edits.Keys - (stray + history) &&
            (history == {} <==> forall e | e in db.edits :: db.edits[e].message !in Eligible(db, cutoff))
  {
    var history := HistoryOf(db, Eligible(db, cutoff));
    forall e | e in db.edits ensures e in history <==> db.edits[e].message in Eligible(db, cutoff) {}
    hide Eligible;
    assert forall e: int :: e in Purged(db, cutoff).edits.Keys <==>
      e in db.edits.Keys - (StrayEdits(db, cutoff) + history);
    if forall e | e in db.edits :: db.edits[e].message !in Eligible(db, cutoff) {
      assert forall e: int :: e !in history;
    }
  }

  function HistoryOf(db: Db, gone: set<MessageId>): set<int> {
    set e | e in db.edits && db.edits[e].message in gone
  }
}
