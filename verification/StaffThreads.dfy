/**
 Staff conversations under concurrency: `ensure_staff_dm_conversation` and `find_staff_dm` of
 backend/app/shared/conversations.py, followed by the caller's commit.

 Any number of requests run as processes. Each statement is one step; statements see committed
 rows only (READ COMMITTED); a row lock is held until the transaction ends. Processes may crash at
 any point, and members may leave conversations at any point.
 */
module StaffThreads {
  import opened Prelude

  type UserId = nat
  type ConvId = nat

  /** A committed `staff_dm`: its member rows, and those of them whose status is active. */
  datatype Conv = Conv(rows: set<UserId>, active: set<UserId>)

  datatype Pc =
    | LockFirst
    | LockSecond
    | Find
    | Insert
    | AddMembers(draft: ConvId)
    | Commit(draft: ConvId)
    | Found(conv: ConvId)
    | Done(conv: ConvId)
    | Aborted

  datatype Proc = Proc(a: UserId, b: UserId, pc: Pc)

  datatype State = State(convs: map<ConvId, Conv>, locks: map<UserId, nat>, procs: seq<Proc>)

  function Low(p: Proc): UserId {
    if p.a <= p.b then p.a else p.b
  }

  function High(p: Proc): UserId {
    if p.a <= p.b then p.b else p.a
  }

  predicate Finished(p: Proc) {
    p.pc.Done? || p.pc.Aborted?
  }

  /** What the two-way self join of `find_staff_dm` selects. */
  predicate Shared(convs: map<ConvId, Conv>, c: ConvId, a: UserId, b: UserId) {
    c in convs && a in convs[c].active && b in convs[c].active
  }

  predicate Drafting(p: Proc, c: ConvId) {
    (p.pc.AddMembers? || p.pc.Commit?) && p.pc.draft == c
  }

  predicate FreshId(s: State, c: ConvId) {
    c !in s.convs && forall i | 0 <= i < |s.procs| :: !Drafting(s.procs[i], c)
  }

  // ----- steps -----

  function Moved(s: State, i: nat, pc: Pc): State
    requires i < |s.procs|
  {
    s.(procs := s.procs[i := s.procs[i].(pc := pc)])
  }

  function Unlocked(locks: map<UserId, nat>, i: nat): map<UserId, nat> {
    map u | u in locks && locks[u] != i :: locks[u]
  }

  /** End of transaction `i`: its row locks go. */
  function Ended(s: State, i: nat, pc: Pc): State
    requires i < |s.procs|
  {
    Moved(s, i, pc).(locks := Unlocked(s.locks, i))
  }

  /** The lock a process is about to take: user rows are locked in ascending id order. */
  function Wanted(p: Proc): Option<UserId> {
    if p.pc.LockFirst? then Some(Low(p))
    else if p.pc.LockSecond? then Some(High(p))
    else None
  }

  /** One statement of process `i`. */
  ghost predicate Step(s: State, i: nat, s': State) {
    i < |s.procs| &&
    var p := s.procs[i];
    match p.pc
    case LockFirst =>
      Low(p) !in s.locks &&
      s' == Moved(s, i, if p.a == p.b then Find else LockSecond).(locks := s.locks[Low(p) := i])
    case LockSecond =>
      High(p) !in s.locks && s' == Moved(s, i, Find).(locks := s.locks[High(p) := i])
    case Find =>
      if exists c :: Shared(s.convs, c, p.a, p.b)
      then exists c :: Shared(s.convs, c, p.a, p.b) && s' == Moved(s, i, Found(c))
      else s' == Moved(s, i, Insert)
    case Insert => exists c :: FreshId(s, c) && s' == Moved(s, i, AddMembers(c))
    case AddMembers(c) =>
      // Two member rows for the same user violate uq_conversation_member.
      if p.a == p.b then s' == Ended(s, i, Aborted) else s' == Moved(s, i, Commit(c))
    case Commit(c) =>
      s' == Ended(s, i, Done(c)).(convs := s.convs[c := Conv({p.a, p.b}, {p.a, p.b})])
    case Found(c) => s' == Ended(s, i, Done(c))
    case _ => false
  }

  ghost predicate Statement(s: State, s': State) {
    exists i: nat :: Step(s, i, s')
  }

  ghost predicate Crash(s: State, i: nat, s': State) {
    i < |s.procs| && !Finished(s.procs[i]) && s' == Ended(s, i, Aborted)
  }

  ghost predicate Arrive(s: State, a: UserId, b: UserId, s': State) {
    s' == s.(procs := s.procs + [Proc(a, b, LockFirst)])
  }

  ghost predicate Leave(s: State, c: ConvId, u: UserId, s': State) {
    c in s.convs && s' == s.(convs := s.convs[c := s.convs[c].(active := s.convs[c].active - {u})])
  }

  ghost predicate Next(s: State, s': State) {
    Statement(s, s') || (exists i: nat :: Crash(s, i, s')) ||
    (exists a: UserId, b: UserId :: Arrive(s, a, b, s')) || (exists c: ConvId, u: UserId :: Leave(s, c, u, s'))
  }

  // ----- the invariant -----

  /** At most one conversation in which both of two people are active. */
  ghost predicate Unique(convs: map<ConvId, Conv>) {
    forall c, d, a, b | a != b && Shared(convs, c, a, b) && Shared(convs, d, a, b) :: c == d
  }

  ghost predicate Pairs(convs: map<ConvId, Conv>) {
    forall c | c in convs :: convs[c].active <= convs[c].rows && |convs[c].rows| == 2
  }

  predicate Holds(p: Proc, u: UserId) {
    match p.pc
    case LockFirst => false
    case LockSecond => u == Low(p)
    case Done(_) => false
    case Aborted => false
    case _ => u == p.a || u == p.b
  }

  ghost predicate LocksMatch(s: State) {
    (forall u | u in s.locks :: s.locks[u] < |s.procs| && Holds(s.procs[s.locks[u]], u)) &&
    forall i, u | 0 <= i < |s.procs| && Holds(s.procs[i], u) :: u in s.locks && s.locks[u] == i
  }

  ghost predicate ProcOk(convs: map<ConvId, Conv>, p: Proc) {
    match p.pc
    case LockSecond => p.a != p.b
    case Insert => NoneShared(convs, p)
    case AddMembers(c) => NoneShared(convs, p) && c !in convs
    case Commit(c) => NoneShared(convs, p) && c !in convs && p.a != p.b
    case Found(c) => c in convs && {p.a, p.b} <= convs[c].rows
    case Done(c) => c in convs && {p.a, p.b} <= convs[c].rows
    case _ => true
  }

  ghost predicate NoneShared(convs: map<ConvId, Conv>, p: Proc) {
    forall c :: !Shared(convs, c, p.a, p.b)
  }

  ghost predicate DraftsApart(procs: seq<Proc>) {
    forall i, j, c | 0 <= i < j < |procs| && Drafting(procs[i], c) :: !Drafting(procs[j], c)
  }

  ghost predicate Inv(s: State) {
    Unique(s.convs) && Pairs(s.convs) && LocksMatch(s) && DraftsApart(s.procs) &&
    forall i | 0 <= i < |s.procs| :: ProcOk(s.convs, s.procs[i])
  }

  /** Any consistent table, no transaction open yet. */
  ghost predicate Init(s: State) {
    Unique(s.convs) && Pairs(s.convs) && s.locks == map[] && s.procs == []
  }

  lemma LocksAfterEnd(s: State, i: nat, pc: Pc)
    requires LocksMatch(s) && i < |s.procs| && (pc.Done? || pc.Aborted?)
    ensures LocksMatch(Ended(s, i, pc))
  {
  }

  lemma LocksAfterMove(s: State, i: nat, pc: Pc)
    requires LocksMatch(s) && i < |s.procs|
    requires forall u :: Holds(s.procs[i], u) <==> Holds(s.procs[i].(pc := pc), u)
    ensures LocksMatch(Moved(s, i, pc))
  {
  }

  lemma LocksAfterLock(s: State, i: nat, w: UserId, pc: Pc)
    requires LocksMatch(s) && i < |s.procs| && w !in s.locks
    requires forall u :: Holds(s.procs[i].(pc := pc), u) <==> Holds(s.procs[i], u) || u == w
    ensures LocksMatch(Moved(s, i, pc).(locks := s.locks[w := i]))
  {
  }

  lemma DraftsAfterMove(s: State, i: nat, pc: Pc)
    requires DraftsApart(s.procs) && i < |s.procs|
    requires forall c :: Drafting(s.procs[i].(pc := pc), c) ==> Drafting(s.procs[i], c) || FreshId(s, c)
    ensures DraftsApart(Moved(s, i, pc).procs)
  {
  }

  /** A process holding both its locks shares no user with another such process. */
  lemma HoldersApart(s: State, i: nat, j: nat)
    requires LocksMatch(s) && i < |s.procs| && j < |s.procs| && i != j
    requires forall k | k == i || k == j :: Holds(s.procs[k], s.procs[k].a) && Holds(s.procs[k], s.procs[k].b)
    ensures {s.procs[i].a, s.procs[i].b} !! {s.procs[j].a, s.procs[j].b}
  {
    var p, q := s.procs[i], s.procs[j];
    assert s.locks[p.a] == i && s.locks[p.b] == i && s.locks[q.a] == j && s.locks[q.b] == j;
  }

  lemma CommitKeepsUnique(convs: map<ConvId, Conv>, c: ConvId, p: Proc)
    requires Unique(convs) && NoneShared(convs, p) && c !in convs && p.a != p.b
    ensures Unique(convs[c := Conv({p.a, p.b}, {p.a, p.b})])
  {
    var convs' := convs[c := Conv({p.a, p.b}, {p.a, p.b})];
    forall d: ConvId, e: ConvId, a: UserId, b: UserId | a != b && Shared(convs', d, a, b) && Shared(convs', e, a, b)
      ensures d == e
    {
      if d != e {
        var other := if d == c then e else d;
        assert Shared(convs, other, a, b);
        if d == c || e == c {
          assert Shared(convs, other, p.a, p.b);
        } else {
          assert Shared(convs, d, a, b) && Shared(convs, e, a, b);
        }
      }
    }
  }

  lemma CommitKeepsInv(s: State, i: nat, s': State)
    requires Inv(s) && Step(s, i, s') && s.procs[i].pc.Commit?
    ensures Inv(s')
  {
    var p := s.procs[i];
    var c := p.pc.draft;
    assert ProcOk(s.convs, p);
    LocksAfterEnd(s, i, Done(c));
    DraftsAfterMove(s, i, Done(c));
    CommitKeepsUnique(s.convs, c, p);
    assert |{p.a, p.b}| == 2;
    forall j | 0 <= j < |s'.procs| && j != i ensures ProcOk(s'.convs, s'.procs[j]) {
      var q := s.procs[j];
      assert ProcOk(s.convs, q);
      if q.pc.Insert? || q.pc.AddMembers? || q.pc.Commit? {
        HoldersApart(s, i, j);
        assert Drafting(p, c);
        assert !Drafting(q, c);
        forall d ensures !Shared(s'.convs, d, q.a, q.b) {
          assert !Shared(s.convs, d, q.a, q.b);
          assert q.a !in {p.a, p.b};
        }
      }
    }
  }

  lemma LockStepKeepsInv(s: State, i: nat, s': State)
    requires Inv(s) && Step(s, i, s') && (s.procs[i].pc.LockFirst? || s.procs[i].pc.LockSecond?)
    ensures Inv(s')
  {
    var p, pc := s.procs[i], s'.procs[i].pc;
    DraftsAfterMove(s, i, pc);
    LocksAfterLock(s, i, Wanted(p).value, pc);
  }

  lemma EndStepKeepsInv(s: State, i: nat, s': State)
    requires Inv(s) && i < |s.procs|
    requires s' == Ended(s, i, Aborted) || (s.procs[i].pc.Found? && s' == Ended(s, i, Done(s.procs[i].pc.conv)))
    ensures Inv(s')
  {
    assert ProcOk(s.convs, s.procs[i]);
    DraftsAfterMove(s, i, s'.procs[i].pc);
    LocksAfterEnd(s, i, s'.procs[i].pc);
  }

  lemma PlainStepKeepsInv(s: State, i: nat, pc: Pc)
    requires Inv(s) && i < |s.procs| && Step(s, i, Moved(s, i, pc))
    requires var p := s.procs[i]; p.pc.Find? || p.pc.Insert? || (p.pc.AddMembers? && p.a != p.b)
    ensures Inv(Moved(s, i, pc))
  {
    var p := s.procs[i];
    assert ProcOk(s.convs, p);
    assert p.(pc := pc) == Moved(s, i, pc).procs[i];
    DraftsAfterMove(s, i, pc);
    LocksAfterMove(s, i, pc);
  }

  lemma StepKeepsInv(s: State, i: nat, s': State)
    requires Inv(s) && Step(s, i, s')
    ensures Inv(s')
  {
    match s.procs[i].pc
    case Commit(_) => CommitKeepsInv(s, i, s');
    case LockFirst => LockStepKeepsInv(s, i, s');
    case LockSecond => LockStepKeepsInv(s, i, s');
    case Found(_) => EndStepKeepsInv(s, i, s');
    case AddMembers(_) =>
      if s.procs[i].a == s.procs[i].b {
        EndStepKeepsInv(s, i, s');
      } else {
        PlainStepKeepsInv(s, i, s'.procs[i].pc);
      }
    case Find => PlainStepKeepsInv(s, i, s'.procs[i].pc);
    case Insert => PlainStepKeepsInv(s, i, s'.procs[i].pc);
  }

  lemma LeaveKeepsInv(s: State, c: ConvId, u: UserId, s': State)
    requires Inv(s) && Leave(s, c, u, s')
    ensures Inv(s')
  {
    forall d: ConvId, a: UserId, b: UserId | Shared(s'.convs, d, a, b) ensures Shared(s.convs, d, a, b) {}
    forall i | 0 <= i < |s'.procs| ensures ProcOk(s'.convs, s'.procs[i]) {
      assert ProcOk(s.convs, s.procs[i]);
    }
  }

  lemma ArriveKeepsInv(s: State, a: UserId, b: UserId, s': State)
    requires Inv(s) && Arrive(s, a, b, s')
    ensures Inv(s')
  {
  }

  lemma NextKeepsInv(s: State, s': State)
    requires Inv(s) && Next(s, s')
    ensures Inv(s')
  {
    if Statement(s, s') {
      var i: nat :| Step(s, i, s');
      StepKeepsInv(s, i, s');
    } else if i: nat :| Crash(s, i, s') {
      EndStepKeepsInv(s, i, s');
    } else if a: UserId, b: UserId :| Arrive(s, a, b, s') {
      ArriveKeepsInv(s, a, b, s');
    } else if c: ConvId, u: UserId :| Leave(s, c, u, s') {
      LeaveKeepsInv(s, c, u, s');
    }
  }

  ghost predicate Run(trace: seq<State>) {
    |trace| > 0 && Init(trace[0]) && forall k | 0 <= k < |trace| - 1 :: Next(trace[k], trace[k + 1])
  }

  lemma {:induction false} RunKeepsInv(trace: seq<State>, k: nat)
    requires Run(trace) && k < |trace|
    ensures Inv(trace[k])
  {
    if k > 0 {
      RunKeepsInv(trace, k - 1);
      NextKeepsInv(trace[k - 1], trace[k]);
    }
  }

  /** Under every interleaving, two people never share two open staff conversations. */
  lemma AtMostOneThread(trace: seq<State>, k: nat, c: ConvId, d: ConvId, a: UserId, b: UserId)
    requires Run(trace) && k < |trace| && a != b
    requires Shared(trace[k].convs, c, a, b) && Shared(trace[k].convs, d, a, b)
    ensures c == d
  {
    RunKeepsInv(trace, k);
  }

  /** Two finished requests for the same people, in either order, got one and the same thread of
      exactly these two people, as long as neither person has left it. */
  lemma RequestsAgree(trace: seq<State>, k: nat, i: nat, j: nat)
    requires Run(trace) && k < |trace| && i < |trace[k].procs| && j < |trace[k].procs|
    requires trace[k].procs[i].pc.Done? && trace[k].procs[j].pc.Done?
    requires var p, q := trace[k].procs[i], trace[k].procs[j]; p.a != p.b && {p.a, p.b} == {q.a, q.b}
    ensures var s, p := trace[k], trace[k].procs[i];
            p.pc.conv in s.convs && s.convs[p.pc.conv].rows == {p.a, p.b}
    ensures var s, c, d := trace[k], trace[k].procs[i].pc.conv, trace[k].procs[j].pc.conv;
            d in s.convs && (s.convs[c].active == s.convs[c].rows && s.convs[d].active == s.convs[d].rows ==> c == d)
  {
    RunKeepsInv(trace, k);
    var s := trace[k];
    var p, q := s.procs[i], s.procs[j];
    assert ProcOk(s.convs, p) && ProcOk(s.convs, q);
    PairIsAll(s.convs[p.pc.conv].rows, p.a, p.b);
    assert q.a in {p.a, p.b} && q.b in {p.a, p.b} && p.a in {q.a, q.b} && p.b in {q.a, q.b};
    PairIsAll(s.convs[q.pc.conv].rows, p.a, p.b);
    var c, d := p.pc.conv, q.pc.conv;
    if s.convs[c].active == s.convs[c].rows && s.convs[d].active == s.convs[d].rows {
      assert Shared(s.convs, c, p.a, p.b) && Shared(s.convs, d, p.a, p.b);
    }
  }

  lemma PairIsAll(rows: set<UserId>, a: UserId, b: UserId)
    requires a != b && {a, b} <= rows && |rows| == 2
    ensures rows == {a, b}
  {
    var rest := rows - {a, b};
    assert |rows| == |rest| + |{a, b}|;
    assert rest == {};
  }

  // ----- no deadlock -----

  lemma UnblockedStep(s: State, i: nat) returns (s': State)
    requires Inv(s) && i < |s.procs| && !Finished(s.procs[i])
    requires Wanted(s.procs[i]).Some? ==> Wanted(s.procs[i]).value !in s.locks
    ensures Step(s, i, s')
  {
    var p := s.procs[i];
    match p.pc
    case LockFirst =>
      s' := Moved(s, i, if p.a == p.b then Find else LockSecond).(locks := s.locks[Low(p) := i]);
    case LockSecond => s' := Moved(s, i, Find).(locks := s.locks[High(p) := i]);
    case Find =>
      if exists c :: Shared(s.convs, c, p.a, p.b) {
        var c :| Shared(s.convs, c, p.a, p.b);
        s' := Moved(s, i, Found(c));
      } else {
        s' := Moved(s, i, Insert);
      }
    case Insert =>
      var drafts := set j | 0 <= j < |s.procs| && Drafting(s.procs[j], DraftOf(s.procs[j])) :: DraftOf(s.procs[j]);
      var c := FreshNat(s.convs.Keys + drafts);
      assert FreshId(s, c) by {
        forall j | 0 <= j < |s.procs| ensures !Drafting(s.procs[j], c) {
          assert Drafting(s.procs[j], DraftOf(s.procs[j])) ==> DraftOf(s.procs[j]) in drafts;
        }
      }
      s' := Moved(s, i, AddMembers(c));
    case AddMembers(c) => s' := if p.a == p.b then Ended(s, i, Aborted) else Moved(s, i, Commit(c));
    case Commit(c) => s' := Ended(s, i, Done(c)).(convs := s.convs[c := Conv({p.a, p.b}, {p.a, p.b})]);
    case Found(c) => s' := Ended(s, i, Done(c));
    case _ => assert false; s' := s;
  }

  function DraftOf(p: Proc): ConvId {
    match p.pc
    case AddMembers(c) => c
    case Commit(c) => c
    case _ => 0
  }

  /** Request `i` waits for a row that request `j` has locked. */
  predicate WaitsFor(s: State, i: nat, j: nat) {
    i < |s.procs| && Wanted(s.procs[i]).Some? && Wanted(s.procs[i]).value in s.locks &&
      s.locks[Wanted(s.procs[i]).value] == j
  }

  /** Each request in the chain waits for the next one. */
  ghost predicate Chain(s: State, chain: seq<nat>, i: nat, j: nat) {
    |chain| > 0 && chain[0] == i && chain[|chain| - 1] == j &&
    forall k | 0 <= k < |chain| - 1 :: WaitsFor(s, chain[k], chain[k + 1])
  }

  /** Follow the waits-for chain: each holder waits for a larger user id, so the chain ends. */
  lemma {:induction false} ChainEnds(s: State, i: nat, top: nat) returns (chain: seq<nat>, j: nat, s': State)
    requires Inv(s) && i < |s.procs| && !Finished(s.procs[i])
    requires forall u | u in s.locks :: u <= top
    ensures Chain(s, chain, i, j) && Step(s, j, s')
    decreases match Wanted(s.procs[i]) case None => 0 case Some(u) => if u <= top then 1 + top - u else 0
  {
    var w := Wanted(s.procs[i]);
    if w == None || w.value !in s.locks {
      chain, j := [i], i;
      s' := UnblockedStep(s, i);
    } else {
      var u := w.value;
      var h := s.locks[u];
      var q := s.procs[h];
      assert Holds(q, u) && ProcOk(s.convs, q);
      assert Wanted(q).Some? ==> q.pc.LockSecond? && u == Low(q) && Low(q) < High(q) == Wanted(q).value;
      var rest: seq<nat>;
      rest, j, s' := ChainEnds(s, h, top);
      chain := [i] + rest;
      assert WaitsFor(s, i, h);
      forall k | 0 <= k < |chain| - 1 ensures WaitsFor(s, chain[k], chain[k + 1]) {
        if k > 0 { assert WaitsFor(s, rest[k - 1], rest[k]); }
      }
    }
  }

  /** Whoever an unfinished request waits for, directly or through others, can move in the end. */
  lemma NoDeadlock(trace: seq<State>, k: nat, i: nat) returns (chain: seq<nat>, j: nat, s': State)
    requires Run(trace) && k < |trace| && i < |trace[k].procs| && !Finished(trace[k].procs[i])
    ensures Chain(trace[k], chain, i, j) && Step(trace[k], j, s')
  {
    var s := trace[k];
    RunKeepsInv(trace, k);
    var bound := FreshNat(s.locks.Keys);
    chain, j, s' := ChainEnds(s, i, bound);
  }

  // ----- every request finishes -----

  /** How many statements a request still has to take, at most. */
  function Rank(p: Proc): nat {
    match p.pc
    case LockFirst => 6
    case LockSecond => 5
    case Find => 4
    case Insert => 3
    case AddMembers(_) => 2
    case Commit(_) => 1
    case Found(_) => 1
    case Done(_) => 0
    case Aborted => 0
  }

  function Work(procs: seq<Proc>): nat {
    SumOf(Rank, procs)
  }

  lemma StepUsesWork(s: State, i: nat, s': State)
    requires Step(s, i, s')
    ensures Work(s'.procs) < Work(s.procs) && |s'.procs| == |s.procs|
  {
    SumOfUpdate(Rank, s.procs, i, s'.procs[i]);
    assert s'.procs == s.procs[i := s'.procs[i]];
  }

  ghost predicate Quiet(s: State) {
    forall i | 0 <= i < |s.procs| :: Finished(s.procs[i])
  }

  ghost predicate CanStep(s: State) {
    exists s' :: Statement(s, s')
  }

  ghost predicate StepsOnly(trace: seq<State>) {
    |trace| > 0 && forall k | 0 <= k < |trace| - 1 :: Statement(trace[k], trace[k + 1])
  }

  /** However the open requests are scheduled, they take at most `Work` statements in all, and
      while one of them is unfinished another statement is possible. */
  lemma {:induction false} RequestsFinish(trace: seq<State>)
    requires StepsOnly(trace) && Inv(trace[0])
    ensures |trace| - 1 + Work(trace[|trace| - 1].procs) <= Work(trace[0].procs)
    ensures Inv(trace[|trace| - 1])
    ensures Quiet(trace[|trace| - 1]) || CanStep(trace[|trace| - 1])
  {
    var n := |trace| - 1;
    if n > 0 {
      RequestsFinish(trace[..n]);
      assert Statement(trace[n - 1], trace[n]);
      var i: nat :| Step(trace[n - 1], i, trace[n]);
      StepUsesWork(trace[n - 1], i, trace[n]);
      StepKeepsInv(trace[n - 1], i, trace[n]);
    }
    var s := trace[n];
    if !Quiet(s) {
      var i :| 0 <= i < |s.procs| && !Finished(s.procs[i]);
      var bound := FreshNat(s.locks.Keys);
      var chain, j, s' := ChainEnds(s, i, bound);
      assert Statement(s, s');
    }
  }

  // ----- every request gets its thread -----

  /** Only the member rows of a request for oneself end it in an error. */
  lemma AbortIff(s: State, i: nat, s': State)
    requires Step(s, i, s')
    ensures s'.procs[i].pc.Aborted? <==> s.procs[i].pc.AddMembers? && s.procs[i].a == s.procs[i].b
  {
  }

  /** A request for two people that has not failed, and if answered, with a thread both are in. */
  ghost predicate OnTrack(s: State, i: nat) {
    i < |s.procs| && s.procs[i].a != s.procs[i].b &&
    match s.procs[i].pc
    case Aborted => false
    case Found(c) => Shared(s.convs, c, s.procs[i].a, s.procs[i].b)
    case Done(c) => Shared(s.convs, c, s.procs[i].a, s.procs[i].b)
    case _ => true
  }

  lemma StepKeepsOnTrack(s: State, j: nat, s': State, i: nat)
    requires Inv(s) && Step(s, j, s') && OnTrack(s, i)
    ensures OnTrack(s', i) && s'.procs[i].(pc := s.procs[i].pc) == s.procs[i]
    ensures forall c | c in s.convs :: c in s'.convs && s'.convs[c] == s.convs[c]
  {
    assert ProcOk(s.convs, s.procs[j]) && ProcOk(s.convs, s.procs[i]);
  }

  lemma {:induction false} StepsKeepOnTrack(trace: seq<State>, i: nat)
    requires StepsOnly(trace) && Inv(trace[0]) && OnTrack(trace[0], i)
    ensures var s, e := trace[0], trace[|trace| - 1];
            Inv(e) && OnTrack(e, i) && e.procs[i].(pc := s.procs[i].pc) == s.procs[i] &&
            forall c | c in s.convs :: c in e.convs && e.convs[c] == s.convs[c]
  {
    hide Inv, Step, OnTrack;
    var n := |trace| - 1;
    if n > 0 {
      StepsKeepOnTrack(trace[..n], i);
      assert Statement(trace[n - 1], trace[n]);
      var j: nat :| Step(trace[n - 1], j, trace[n]);
      StepKeepsOnTrack(trace[n - 1], j, trace[n], i);
      StepKeepsInv(trace[n - 1], j, trace[n]);
    }
  }

  /** When the open requests have run to their ends without a crash, each request for two people has
      been answered with a thread in which both are active: the one they shared before, if there was
      one. Threads that existed are as they were. */
  lemma ThreadsDelivered(trace: seq<State>, i: nat)
    requires StepsOnly(trace) && Inv(trace[0]) && OnTrack(trace[0], i) && Quiet(trace[|trace| - 1])
    ensures var s, e := trace[0], trace[|trace| - 1];
            i < |e.procs| && e.procs[i].pc.Done? && e.procs[i].a == s.procs[i].a && e.procs[i].b == s.procs[i].b &&
            Shared(e.convs, e.procs[i].pc.conv, e.procs[i].a, e.procs[i].b) &&
            (forall c | Shared(s.convs, c, s.procs[i].a, s.procs[i].b) :: e.procs[i].pc.conv == c) &&
            forall c | c in s.convs :: c in e.convs && e.convs[c] == s.convs[c]
  {
    StepsKeepOnTrack(trace, i);
    var s, e := trace[0], trace[|trace| - 1];
    forall c | Shared(s.convs, c, s.procs[i].a, s.procs[i].b) ensures e.procs[i].pc.conv == c {
      assert Shared(e.convs, c, s.procs[i].a, s.procs[i].b);
    }
  }
}
