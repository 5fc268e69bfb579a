/**
 Match conversations under concurrency: `ensure_dm_conversation` and `resolve_conversation` of
 backend/app/shared/conversations.py.

 No row is locked here. The arbiter is the unique key on `conversations.match_id`: an insert waits
 while another open transaction holds an uncommitted row with the same key, fails once that row is
 committed, and goes ahead if it was rolled back. A failed insert is rolled back, which expires the
 match the caller passed in; reading `match.id` for the reload then raises (as
 backend/app/features/employers/service.py:95-97 explains), so the request that lost ends in an error.
 */
module DmConversations {
  import opened Prelude

  type UserId = nat
  type MatchId = nat
  type ConvId = nat

  /** Groups and staff threads are conversations without a match. */
  datatype Conv = Conv(matchId: Option<MatchId>, members: set<UserId>)

  datatype Error = LostRace | SelfMatch | Crashed

  datatype Pc =
    | Find
    | Insert
    | AddMembers(draft: ConvId)
    | Commit(draft: ConvId)
    | Done(conv: ConvId)
    | Failed(why: Error)

  /** A request to open the conversation of a match. */
  datatype Proc = Proc(matchId: MatchId, pc: Pc)

  /** `matches` gives each match its two users; `convs` holds the committed conversations. */
  datatype State = State(matches: map<MatchId, (UserId, UserId)>, convs: map<ConvId, Conv>, procs: seq<Proc>)

  predicate For(convs: map<ConvId, Conv>, c: ConvId, m: MatchId) {
    c in convs && convs[c].matchId == Some(m)
  }

  /** The process has inserted a conversation row it has not committed. */
  predicate Claims(p: Proc) {
    p.pc.AddMembers? || p.pc.Commit?
  }

  predicate Finished(p: Proc) {
    p.pc.Done? || p.pc.Failed?
  }

  /** The insert of request `i` waits for the transaction of request `j`. */
  predicate WaitsFor(procs: seq<Proc>, i: nat, j: nat) {
    i < |procs| && j < |procs| && j != i && procs[i].pc.Insert? && Claims(procs[j]) &&
      procs[j].matchId == procs[i].matchId
  }

  predicate KeyHeld(procs: seq<Proc>, i: nat) {
    exists j :: 0 <= j < |procs| && WaitsFor(procs, i, j)
  }

  predicate FreshId(s: State, c: ConvId) {
    c !in s.convs && forall i | 0 <= i < |s.procs| && Claims(s.procs[i]) :: s.procs[i].pc.draft != c
  }

  function Moved(s: State, i: nat, pc: Pc): State
    requires i < |s.procs|
  {
    s.(procs := s.procs[i := s.procs[i].(pc := pc)])
  }

  function Pair(s: State, m: MatchId): set<UserId>
    requires m in s.matches
  {
    {s.matches[m].0, s.matches[m].1}
  }

  /** One statement of process `i`. */
  ghost predicate Step(s: State, i: nat, s': State) {
    i < |s.procs| && s.procs[i].matchId in s.matches &&
    var p := s.procs[i];
    var m := p.matchId;
    match p.pc
    case Find =>
      if exists c :: For(s.convs, c, m)
      then exists c :: For(s.convs, c, m) && s' == Moved(s, i, Done(c))
      else s' == Moved(s, i, Insert)
    case Insert =>
      !KeyHeld(s.procs, i) &&
      if exists c :: For(s.convs, c, m)
      then s' == Moved(s, i, Failed(LostRace))
      else exists c :: FreshId(s, c) && s' == Moved(s, i, AddMembers(c))
    case AddMembers(c) =>
      // Two member rows for the same user violate uq_conversation_member.
      s' == Moved(s, i, if s.matches[m].0 == s.matches[m].1 then Failed(SelfMatch) else Commit(c))
    case Commit(c) => s' == Moved(s, i, Done(c)).(convs := s.convs[c := Conv(Some(m), Pair(s, m))])
    case _ => false
  }

  ghost predicate Statement(s: State, s': State) {
    exists i: nat :: Step(s, i, s')
  }

  ghost predicate Crash(s: State, i: nat, s': State) {
    i < |s.procs| && !Finished(s.procs[i]) && s' == Moved(s, i, Failed(Crashed))
  }

  ghost predicate Arrive(s: State, m: MatchId, s': State) {
    m in s.matches && s' == s.(procs := s.procs + [Proc(m, Find)])
  }

  ghost predicate Next(s: State, s': State) {
    Statement(s, s') || (exists i: nat :: Crash(s, i, s')) || (exists m: MatchId :: Arrive(s, m, s'))
  }

  // ----- the invariant -----

  ghost predicate OnePerMatch(convs: map<ConvId, Conv>) {
    forall c, d, m | For(convs, c, m) && For(convs, d, m) :: c == d
  }

  ghost predicate ProcOk(s: State, p: Proc) {
    p.matchId in s.matches &&
    match p.pc
    case AddMembers(c) => c !in s.convs && forall d :: !For(s.convs, d, p.matchId)
    case Commit(c) =>
      c !in s.convs && s.matches[p.matchId].0 != s.matches[p.matchId].1 && forall d :: !For(s.convs, d, p.matchId)
    case Done(c) => For(s.convs, c, p.matchId)
    case Failed(LostRace) => exists c :: For(s.convs, c, p.matchId)
    case Failed(SelfMatch) => s.matches[p.matchId].0 == s.matches[p.matchId].1
    case _ => true
  }

  ghost predicate ClaimsApart(procs: seq<Proc>) {
    forall i, j | 0 <= i < j < |procs| && Claims(procs[i]) && Claims(procs[j]) ::
      procs[i].matchId != procs[j].matchId && procs[i].pc.draft != procs[j].pc.draft
  }

  /** `before` are the conversations that existed when the run began. */
  ghost predicate Inv(before: map<ConvId, Conv>, s: State) {
    OnePerMatch(s.convs) && ClaimsApart(s.procs) &&
    (forall i | 0 <= i < |s.procs| :: ProcOk(s, s.procs[i])) &&
    (forall c | c in before :: c in s.convs && s.convs[c] == before[c]) &&
    forall c | c in s.convs && c !in before ::
      s.convs[c].matchId.Some? && s.convs[c].matchId.value in s.matches &&
      s.convs[c].members == Pair(s, s.convs[c].matchId.value) && |s.convs[c].members| == 2
  }

  ghost predicate Init(s: State) {
    OnePerMatch(s.convs) && s.procs == []
  }

  lemma CommitKeepsInv(before: map<ConvId, Conv>, s: State, i: nat, s': State)
    requires Inv(before, s) && Step(s, i, s') && s.procs[i].pc.Commit?
    ensures Inv(before, s')
  {
    var p := s.procs[i];
    assert ProcOk(s, p);
    assert |Pair(s, p.matchId)| == 2;
    forall d, m | For(s'.convs, d, m) ensures For(s.convs, d, m) || (d == p.pc.draft && m == p.matchId) {}
    assert forall d :: !For(s.convs, d, p.matchId);
    forall j | 0 <= j < |s'.procs| && j != i ensures ProcOk(s', s'.procs[j]) {
      var q := s.procs[j];
      assert ProcOk(s, q);
      if q.pc == Failed(LostRace) {
        var c :| For(s.convs, c, q.matchId);
        assert For(s'.convs, c, q.matchId);
      } else if Claims(q) {
        assert q.matchId != p.matchId && q.pc.draft != p.pc.draft;
        forall d ensures !For(s'.convs, d, q.matchId) { assert !For(s.convs, d, q.matchId); }
      }
    }
  }

  lemma MoveKeepsInv(before: map<ConvId, Conv>, s: State, i: nat, pc: Pc)
    requires Inv(before, s) && i < |s.procs| && ProcOk(s, s.procs[i].(pc := pc))
    requires Claims(s.procs[i].(pc := pc)) ==>
               (Claims(s.procs[i]) && s.procs[i].pc.draft == pc.draft) ||
               (s.procs[i].pc.Insert? && !KeyHeld(s.procs, i) && FreshId(s, pc.draft))
    ensures Inv(before, Moved(s, i, pc))
  {
    var s' := Moved(s, i, pc);
    if s.procs[i].pc.Insert? && !KeyHeld(s.procs, i) {
      forall j | 0 <= j < |s.procs| && j != i && Claims(s.procs[j]) ensures s.procs[j].matchId != s.procs[i].matchId {
        assert !WaitsFor(s.procs, i, j);
      }
    }
    forall j | 0 <= j < |s'.procs| ensures ProcOk(s', s'.procs[j]) {
      assert ProcOk(s, if j == i then s.procs[i].(pc := pc) else s.procs[j]);
    }
  }

  lemma StepKeepsInv(before: map<ConvId, Conv>, s: State, i: nat, s': State)
    requires Inv(before, s) && Step(s, i, s')
    ensures Inv(before, s')
  {
    var p := s.procs[i];
    assert ProcOk(s, p);
    if p.pc.Commit? {
      CommitKeepsInv(before, s, i, s');
    } else {
      var pc := s'.procs[i].pc;
      assert s' == Moved(s, i, pc);
      MoveKeepsInv(before, s, i, pc);
    }
  }

  lemma NextKeepsInv(before: map<ConvId, Conv>, s: State, s': State)
    requires Inv(before, s) && Next(s, s')
    ensures Inv(before, s')
  {
    if Statement(s, s') {
      var i: nat :| Step(s, i, s');
      StepKeepsInv(before, s, i, s');
    } else if i: nat :| Crash(s, i, s') {
      MoveKeepsInv(before, s, i, Failed(Crashed));
    }
  }

  ghost predicate Run(trace: seq<State>) {
    |trace| > 0 && Init(trace[0]) && forall k | 0 <= k < |trace| - 1 :: Next(trace[k], trace[k + 1])
  }

  lemma {:induction false} RunKeepsInv(trace: seq<State>, k: nat)
    requires Run(trace) && k < |trace|
    ensures Inv(trace[0].convs, trace[k])
  {
    if k > 0 {
      RunKeepsInv(trace, k - 1);
      NextKeepsInv(trace[0].convs, trace[k - 1], trace[k]);
    }
  }

  /** A match never gains a second conversation, and one created here has exactly its two users. */
  lemma OneConversationPerMatch(trace: seq<State>, k: nat, c: ConvId, d: ConvId)
    requires Run(trace) && k < |trace| && c in trace[k].convs && d in trace[k].convs && trace[k].convs[c].matchId.Some?
    ensures trace[k].convs[c].matchId == trace[k].convs[d].matchId ==> c == d
    ensures c !in trace[0].convs ==>
              var s := trace[k]; var m := s.convs[c].matchId.value;
              m in s.matches && s.convs[c].members == Pair(s, m) && |s.convs[c].members| == 2
  {
    RunKeepsInv(trace, k);
    var m := trace[k].convs[c].matchId.value;
    assert For(trace[k].convs, c, m) && (trace[k].convs[d].matchId == Some(m) ==> For(trace[k].convs, d, m));
  }

  /** All requests that returned a conversation for a match returned the same one. */
  lemma RequestsAgree(trace: seq<State>, k: nat, i: nat, j: nat)
    requires Run(trace) && k < |trace| && i < |trace[k].procs| && j < |trace[k].procs|
    requires trace[k].procs[i].pc.Done? && trace[k].procs[j].pc.Done?
    requires trace[k].procs[i].matchId == trace[k].procs[j].matchId
    ensures trace[k].procs[i].pc.conv == trace[k].procs[j].pc.conv
    ensures For(trace[k].convs, trace[k].procs[i].pc.conv, trace[k].procs[i].matchId)
  {
    RunKeepsInv(trace, k);
    assert ProcOk(trace[k], trace[k].procs[i]) && ProcOk(trace[k], trace[k].procs[j]);
  }

  // ----- losing the race -----

  /** The statement of a request that ends it in an error, other than a crash: the insert, exactly
      when a conversation of the match has been committed since its find; or the member rows, exactly
      when the match pairs a user with itself. */
  lemma ErrorIff(trace: seq<State>, k: nat, i: nat)
    requires Run(trace) && k < |trace| - 1 && Step(trace[k], i, trace[k + 1])
    ensures var s, p := trace[k], trace[k].procs[i];
            trace[k + 1].procs[i].pc.Failed? <==>
              (p.pc.Insert? && exists c :: For(s.convs, c, p.matchId)) ||
              (p.pc.AddMembers? && s.matches[p.matchId].0 == s.matches[p.matchId].1)
  {
  }

  /** A request that lost can simply be made again: whenever a request for the same match looks, it
      finds the winner's conversation. */
  lemma RetryFindsWinner(trace: seq<State>, k: nat, i: nat, j: nat, s': State)
    requires Run(trace) && k < |trace| && i < |trace[k].procs| && trace[k].procs[i].pc == Failed(LostRace)
    requires Step(trace[k], j, s') && trace[k].procs[j].pc.Find? &&
        trace[k].procs[j].matchId == trace[k].procs[i].matchId
    ensures s'.procs[j].pc.Done? && For(trace[k].convs, s'.procs[j].pc.conv, trace[k].procs[i].matchId)
  {
    RunKeepsInv(trace, k);
    assert ProcOk(trace[k], trace[k].procs[i]);
  }

  /** Without a crash, a request fails only because its match has a conversation, which is the one
      every finished request got, or because its match pairs a user with itself. */
  lemma FailureHasCause(trace: seq<State>, k: nat, i: nat)
    requires Run(trace) && k < |trace| && i < |trace[k].procs| && trace[k].procs[i].pc.Failed?
    requires trace[k].procs[i].pc.why != Crashed
    ensures var s, m := trace[k], trace[k].procs[i].matchId;
            m in s.matches && (s.matches[m].0 == s.matches[m].1 || exists c :: For(s.convs, c, m))
  {
    RunKeepsInv(trace, k);
    assert ProcOk(trace[k], trace[k].procs[i]);
  }

  /** The input: two requests for one new match, of which the second errs. */
  lemma LoserErrs() returns (trace: seq<State>)
    ensures Run(trace) && |trace[0].convs| == 0
    ensures var s := trace[|trace| - 1];
            |s.procs| == 2 && s.procs[0].matchId == s.procs[1].matchId &&
            s.procs[0].pc.Done? && s.procs[1].pc == Failed(LostRace)
  {
    var s0 := State(map[5 := (1, 2)], map[], []);
    var s1 := s0.(procs := [Proc(5, Find)]);
    var s2 := s1.(procs := [Proc(5, Find), Proc(5, Find)]);
    assert s1.procs == s0.procs + [Proc(5, Find)] && s2.procs == s1.procs + [Proc(5, Find)];
    assert Arrive(s0, 5, s1) && Arrive(s1, 5, s2);
    var s3, s4 := Moved(s2, 0, Insert), Moved(Moved(s2, 0, Insert), 1, Insert);
    assert Step(s2, 0, s3) && Step(s3, 1, s4);
    var s5 := Moved(s4, 0, AddMembers(9));
    assert FreshId(s4, 9);
    assert Step(s4, 0, s5);
    var s6 := Moved(s5, 0, Commit(9));
    assert Step(s5, 0, s6);
    var s7 := Moved(s6, 0, Done(9)).(convs := s6.convs[9 := Conv(Some(5), Pair(s6, 5))]);
    assert Step(s6, 0, s7);
    assert For(s7.convs, 9, 5);
    var s8 := Moved(s7, 1, Failed(LostRace));
    assert !KeyHeld(s7.procs, 1);
    assert Step(s7, 1, s8);
    trace := [s0, s1, s2, s3, s4, s5, s6, s7, s8];
    forall k | 0 <= k < |trace| - 1 ensures Next(trace[k], trace[k + 1]) {
      if k >= 2 { assert Statement(trace[k], trace[k + 1]); }
    }
  }

  /** The request has lost: it has an error, or its insert is bound to fail. */
  ghost predicate Lost(s: State, i: nat) {
    i < |s.procs| &&
    (s.procs[i].pc == Failed(LostRace) || (s.procs[i].pc.Insert? && exists c :: For(s.convs, c, s.procs[i].matchId)))
  }

  /** Request `j` commits a conversation of the match of `i`, which has found none and not inserted yet. */
  ghost predicate Overtakes(trace: seq<State>, n: nat, j: nat, i: nat) {
    n + 1 < |trace| && Step(trace[n], j, trace[n + 1]) && trace[n].procs[j].pc.Commit? && j != i &&
    i < |trace[n].procs| && trace[n].procs[i].pc.Insert? && trace[n].procs[j].matchId == trace[n].procs[i].matchId
  }

  lemma LostBefore(s: State, s': State, i: nat) returns (j: nat)
    requires Next(s, s') && Lost(s', i) && !Lost(s, i)
    ensures Step(s, j, s') && s.procs[j].pc.Commit? && j != i && i < |s.procs| && s.procs[i].pc.Insert?
    ensures s.procs[j].matchId == s.procs[i].matchId
  {
    if Statement(s, s') {
      j :| Step(s, j, s');
      if s'.procs[i].pc.Insert? {
        var c :| For(s'.convs, c, s'.procs[i].matchId);
        assert !For(s.convs, c, s'.procs[i].matchId);
      }
    } else {
      assert false;
    }
  }

  /** A request loses only to another one that commits a conversation of its match while this one stands
      between its find and its insert. */
  lemma {:induction false} LostToCommit(trace: seq<State>, k: nat, i: nat) returns (n: nat, j: nat)
    requires Run(trace) && k < |trace| && Lost(trace[k], i)
    ensures n < k && Overtakes(trace, n, j, i)
  {
    assert k > 0;
    hide Lost, Step, Next;
    if Lost(trace[k - 1], i) {
      n, j := LostToCommit(trace, k - 1, i);
    } else {
      n := k - 1;
      j := LostBefore(trace[n], trace[k], i);
    }
  }

  // ----- progress -----

  lemma UnblockedStep(s: State, i: nat) returns (s': State)
    requires i < |s.procs| && s.procs[i].matchId in s.matches && !Finished(s.procs[i])
    requires !KeyHeld(s.procs, i)
    ensures Step(s, i, s')
  {
    var p := s.procs[i];
    var m := p.matchId;
    if p.pc.AddMembers? {
      s' := Moved(s, i, if s.matches[m].0 == s.matches[m].1 then Failed(SelfMatch) else Commit(p.pc.draft));
    } else if p.pc.Commit? {
      s' := Moved(s, i, Done(p.pc.draft)).(convs := s.convs[p.pc.draft := Conv(Some(m), Pair(s, m))]);
    } else if exists c :: For(s.convs, c, m) {
      var c :| For(s.convs, c, m);
      s' := Moved(s, i, if p.pc.Insert? then Failed(LostRace) else Done(c));
    } else if p.pc.Insert? {
      var c := FreshNat(s.convs.Keys + set j | 0 <= j < |s.procs| && Claims(s.procs[j]) :: s.procs[j].pc.draft);
      s' := Moved(s, i, AddMembers(c));
    } else {
      s' := Moved(s, i, Insert);
    }
  }

  /** An unfinished request can move, or waits for one that can. */
  lemma MoverExists(before: map<ConvId, Conv>, s: State, i: nat) returns (j: nat, s': State)
    requires Inv(before, s) && i < |s.procs| && !Finished(s.procs[i])
    ensures (j == i || WaitsFor(s.procs, i, j)) && Step(s, j, s')
  {
    j := i;
    if KeyHeld(s.procs, i) {
      j :| 0 <= j < |s.procs| && WaitsFor(s.procs, i, j);
    }
    assert ProcOk(s, s.procs[j]);
    s' := UnblockedStep(s, j);
  }

  /** No deadlock: an unfinished request can take its next statement, or the one whose uncommitted
      row it waits for can. */
  lemma NoDeadlock(trace: seq<State>, k: nat, i: nat) returns (j: nat, s': State)
    requires Run(trace) && k < |trace| && i < |trace[k].procs| && !Finished(trace[k].procs[i])
    ensures (j == i || WaitsFor(trace[k].procs, i, j)) && Step(trace[k], j, s')
  {
    RunKeepsInv(trace, k);
    j, s' := MoverExists(trace[0].convs, trace[k], i);
  }

  function Rank(p: Proc): nat {
    match p.pc
    case Find => 4
    case Insert => 3
    case AddMembers(_) => 2
    case Commit(_) => 1
    case _ => 0
  }

  function Work(procs: seq<Proc>): nat {
    SumOf(Rank, procs)
  }

  lemma StepUsesWork(s: State, i: nat, s': State)
    requires Step(s, i, s')
    ensures Work(s'.procs) < Work(s.procs)
  {
    SumOfUpdate(Rank, s.procs, i, s'.procs[i]);
    assert s'.procs == s.procs[i := s'.procs[i]];
  }

  ghost predicate Quiet(s: State) {
    forall i | 0 <= i < |s.procs| :: Finished(s.procs[i])
  }

  ghost predicate CanStep(s: State) {
    exists s' :: Statement(s, s')
  }

  ghost predicate StepsOnly(trace: seq<State>) {
    |trace| > 0 && forall k | 0 <= k < |trace| - 1 :: Statement(trace[k], trace[k + 1])
  }

  /** However the open requests are scheduled, they take at most `Work` statements in all, and
      while one of them is unfinished another statement is possible. */
  lemma {:induction false} RequestsFinish(before: map<ConvId, Conv>, trace: seq<State>)
    requires StepsOnly(trace) && Inv(before, trace[0])
    ensures |trace| - 1 + Work(trace[|trace| - 1].procs) <= Work(trace[0].procs)
    ensures Inv(before, trace[|trace| - 1])
    ensures Quiet(trace[|trace| - 1]) || CanStep(trace[|trace| - 1])
  {
    hide Inv, Step, Work;
    var n := |trace| - 1;
    if n > 0 {
      RequestsFinish(before, trace[..n]);
      assert Statement(trace[n - 1], trace[n]);
      var i: nat :| Step(trace[n - 1], i, trace[n]);
      StepUsesWork(trace[n - 1], i, trace[n]);
      StepKeepsInv(before, trace[n - 1], i, trace[n]);
    }
    var s := trace[n];
    if !Quiet(s) {
      var i :| 0 <= i < |s.procs| && !Finished(s.procs[i]);
      var j, s' := MoverExists(before, s, i);
      assert Statement(s, s');
    }
  }

  /** A request that has not failed, unless by losing. */
  ghost predicate OnTrack(s: State, i: nat) {
    i < |s.procs| && (s.procs[i].pc.Failed? ==> s.procs[i].pc.why == LostRace)
  }

  lemma StepKeepsOnTrack(s: State, j: nat, s': State, i: nat)
    requires Step(s, j, s') && OnTrack(s, i)
    requires s.procs[i].matchId in s.matches && s.matches[s.procs[i].matchId].0 != s.matches[s.procs[i].matchId].1
    ensures OnTrack(s', i) && s'.procs[i].matchId == s.procs[i].matchId && s'.matches == s.matches
  {
  }

  lemma {:induction false} StepsKeepOnTrack(before: map<ConvId, Conv>, trace: seq<State>, i: nat)
    requires StepsOnly(trace) && Inv(before, trace[0]) && OnTrack(trace[0], i)
    requires var m := trace[0].procs[i].matchId; m in trace[0].matches && trace[0].matches[m].0 != trace[0].matches[m].1
    ensures var e := trace[|trace| - 1];
            Inv(before, e) && OnTrack(e, i) && e.procs[i].matchId == trace[0].procs[i].matchId &&
            e.matches == trace[0].matches
  {
    hide Inv, Step;
    var n := |trace| - 1;
    if n > 0 {
      StepsKeepOnTrack(before, trace[..n], i);
      assert Statement(trace[n - 1], trace[n]);
      var j: nat :| Step(trace[n - 1], j, trace[n]);
      StepKeepsInv(before, trace[n - 1], j, trace[n]);
      StepKeepsOnTrack(trace[n - 1], j, trace[n], i);
    }
  }

  /** When the open requests have run to their ends without a crash, each request for a match of two
      people has been answered with the match's conversation, or has lost to the one that is there. */
  lemma ConversationsDelivered(before: map<ConvId, Conv>, trace: seq<State>, i: nat) returns (c: ConvId)
    requires StepsOnly(trace) && Inv(before, trace[0]) && OnTrack(trace[0], i) && Quiet(trace[|trace| - 1])
    requires var m := trace[0].procs[i].matchId; m in trace[0].matches && trace[0].matches[m].0 != trace[0].matches[m].1
    ensures var e := trace[|trace| - 1];
            i < |e.procs| && For(e.convs, c, trace[0].procs[i].matchId) &&
            (e.procs[i].pc == Done(c) || e.procs[i].pc == Failed(LostRace))
  {
    StepsKeepOnTrack(before, trace, i);
    var e := trace[|trace| - 1];
    assert ProcOk(e, e.procs[i]);
    if e.procs[i].pc.Done? {
      c := e.procs[i].pc.conv;
    } else {
      c :| For(e.convs, c, e.procs[i].matchId);
    }
  }

  // ----- resolving a client-supplied id -----

  /** A row the `id = ref OR match_id = ref` query may return. */
  predicate Addressed(convs: map<ConvId, Conv>, ref: nat, c: ConvId) {
    c in convs && (c == ref || convs[c].matchId == Some(ref))
  }

  /** At most one row answers a reference exactly when the reference is not both a conversation
      and the match of another conversation. The two id spaces are assumed apart by the source. */
  lemma ResolveIsUniqueIff(convs: map<ConvId, Conv>, ref: nat)
    requires OnePerMatch(convs)
    ensures (forall c, d | Addressed(convs, ref, c) && Addressed(convs, ref, d) :: c == d) <==>
            !(ref in convs && exists d :: For(convs, d, ref) && d != ref)
  {
    if d :| ref in convs && For(convs, d, ref) && d != ref {
      assert Addressed(convs, ref, ref) && Addressed(convs, ref, d);
    } else {
      forall c, d | Addressed(convs, ref, c) && Addressed(convs, ref, d) ensures c == d {
        assert c == ref || For(convs, c, ref);
        assert d == ref || For(convs, d, ref);
      }
    }
  }
}
