/**
 Scoped admin permissions as one state machine: backend/app/features/admin/admins.py, the admin part
 of backend/app/features/account/service.py, and the role rules of backend/app/shared/email_roles.py.
 */
module AdminScopes {
  import opened Prelude

  type UserId = int

  datatype Scope = SuperAdmin | SchoolAdmin | HonorsAdmin | ContentAdmin | Auditor

  datatype AccountRole = Student | Staff | AdminRole

  datatype User = User(email: string, role: AccountRole, linked: bool, deleted: bool)

  /** A membership row is keyed by (user, scope); the value says whether its status is active. */
  datatype State = State(users: map<UserId, User>, memberships: map<(UserId, Scope), bool>)

  datatype Error = Unprocessable | Forbidden | NotFound | Conflict | Unavailable

  // ----- campus email rules -----

  /** Deployment settings. `clean` stands for Python's `lower().strip()`, `idText` for `str(UUID)`. */
  datatype Settings = Settings(
    clean: string -> string,
    idText: UserId -> string,
    allowedDomains: set<string>,
    devRoles: map<string, AccountRole>,
    devPermitted: bool)

  const STUDENT_DOMAIN := "students.livingstone.edu"
  const STAFF_DOMAIN := "livingstone.edu"
  const DELETED_DOMAIN := "deleted.invalid"

  /** The part after the last `@`; the whole text when there is none. */
  function DomainOf(email: string): string {
    if email == "" || email[|email| - 1] == '@' then ""
    else DomainOf(email[..|email| - 1]) + [email[|email| - 1]]
  }

  function Normalize(cfg: Settings, email: string): Option<string> {
    var e := cfg.clean(email);
    if '@' !in e then None
    else if DomainOf(e) in cfg.allowedDomains then Some(e)
    else if e in cfg.devRoles && cfg.devPermitted then Some(e)
    else None
  }

  /** None stands for the ValueError. */
  function InferRole(cfg: Settings, email: string): Option<AccountRole> {
    match Normalize(cfg, email)
    case None => None
    case Some(e) =>
      if e in cfg.devRoles then (if cfg.devRoles[e] == AdminRole then None else Some(cfg.devRoles[e]))
      else if DomainOf(e) == STUDENT_DOMAIN then Some(Student)
      else if DomainOf(e) == STAFF_DOMAIN then Some(Staff)
      else None
  }

  function Tombstone(cfg: Settings, u: UserId): string {
    ("deleted+" + cfg.idText(u)) + ("@" + DELETED_DOMAIN)
  }

  /** No deployment lists the tombstone domain as a campus or test domain. */
  ghost predicate SettingsOk(cfg: Settings) {
    DELETED_DOMAIN !in cfg.allowedDomains && forall e | e in cfg.devRoles :: DomainOf(e) != DELETED_DOMAIN
  }

  lemma {:induction false} DomainOfJoined(name: string, domain: string)
    requires '@' !in domain
    ensures DomainOf(name + ("@" + domain)) == domain
  {
    var e := name + ("@" + domain);
    if domain == "" {
      assert e[|e| - 1] == '@';
    } else {
      var n := |domain| - 1;
      assert domain[..n] + [domain[n]] == domain;
      assert e[..|e| - 1] == name + ("@" + domain[..n]);
      DomainOfJoined(name, domain[..n]);
    }
  }

  /** A campus address is never a deleted account's. */
  lemma TombstoneIsNotCampus(cfg: Settings, u: UserId, email: string)
    requires SettingsOk(cfg)
    ensures Normalize(cfg, email) != Some(Tombstone(cfg, u))
  {
    DomainOfJoined("deleted+" + cfg.idText(u), DELETED_DOMAIN);
  }

  // ----- permissions -----

  function Scopes(s: State, u: UserId): set<Scope> {
    set k | k in s.memberships && s.memberships[k] && k.0 == u :: k.1
  }

  function CanInvite(inviter: Option<Scope>, target: Scope): bool {
    match inviter
    case Some(SuperAdmin) => true
    case Some(SchoolAdmin) => target in {HonorsAdmin, ContentAdmin, Auditor}
    case _ => false
  }

  function PrimaryRole(scopes: set<Scope>): Option<Scope> {
    if SuperAdmin in scopes then Some(SuperAdmin)
    else if SchoolAdmin in scopes then Some(SchoolAdmin)
    else None
  }

  function May(s: State, actor: UserId, target: Scope): bool {
    CanInvite(PrimaryRole(Scopes(s, actor)), target)
  }

  function SuperAdmins(s: State): set<UserId> {
    set k | k in s.memberships && s.memberships[k] && k.1 == SuperAdmin :: k.0
  }

  // ----- operations on values -----

  /** The user row an email selects; emails are unique. */
  predicate Lookup(s: State, email: string, target: Option<UserId>) {
    match target
    case Some(t) => t in s.users && s.users[t].email == email
    case None => forall u | u in s.users :: s.users[u].email != email
  }

  /** `role` is None for a name outside ADMIN_ROLES; `authId` says whether Supabase returned an
      identity; `target` is the row found for the normalized email, `newId` the id of a new row. */
  function Invited(cfg: Settings, s: State, actor: UserId, email: string, role: Option<Scope>,
                   target: Option<UserId>, newId: UserId, authId: bool): Result<State, Error>
    requires target.Some? ==> target.value in s.users
  {
    if role == None then Err(Unprocessable)
    else if !May(s, actor, role.value) then Err(Forbidden)
    else
      match Normalize(cfg, email)
      case None => Err(Unprocessable)
      case Some(e) =>
        var u := if target == None then newId else target.value;
        var k := (u, role.value);
        if target.Some? && k in s.memberships && s.memberships[k] then Err(Conflict)
        else if !(target.Some? && s.users[u].linked) && !authId then Err(Unavailable)
        else
          var user := if target == None then User(e, AdminRole, true, false)
                      else s.users[u].(role := AdminRole, linked := true);
          Ok(State(s.users[u := user], s.memberships[k := true]))
  }

  function Demoted(cfg: Settings, s: State, u: UserId): State {
    if Scopes(s, u) != {} || u !in s.users || s.users[u].role != AdminRole then s
    else
      var role := match InferRole(cfg, s.users[u].email) case Some(r) => r case None => Student;
      s.(users := s.users[u := s.users[u].(role := role)])
  }

  function Revoked(cfg: Settings, s: State, actor: UserId, k: (UserId, Scope)): Result<State, Error> {
    if k !in s.memberships then Err(NotFound)
    else if !s.memberships[k] then Err(Conflict)
    else if k.0 == actor && k.1 == SuperAdmin then Err(Conflict)
    else if !May(s, actor, k.1) then Err(Forbidden)
    else if k.1 == SuperAdmin && |SuperAdmins(s)| <= 1 then Err(Conflict)
    else Ok(Demoted(cfg, s.(memberships := s.memberships[k := false]), k.0))
  }

  /** Every active membership of `u` set to revoked. */
  function Retired(memberships: map<(UserId, Scope), bool>, u: UserId): map<(UserId, Scope), bool> {
    map k | k in memberships :: memberships[k] && k.0 != u
  }

  function Resigned(cfg: Settings, s: State, actor: UserId): Result<State, Error> {
    if Scopes(s, actor) == {} || SuperAdmin in Scopes(s, actor) then Err(Conflict)
    else Ok(Demoted(cfg, s.(memberships := Retired(s.memberships, actor)), actor))
  }

  function AccountDeleted(cfg: Settings, s: State, u: UserId): Result<State, Error>
    requires u in s.users
  {
    if SuperAdmin in Scopes(s, u) && |SuperAdmins(s)| <= 1 then Err(Conflict)
    else Ok(State(
      s.users[u := s.users[u].(email := Tombstone(cfg, u), linked := false, deleted := true)],
      Retired(s.memberships, u)))
  }

  /** `sync_user_role_from_email`, which never touches an admin. */
  function Synced(cfg: Settings, s: State, u: UserId, email: string): Result<State, Error>
    requires u in s.users
  {
    if s.users[u].role == AdminRole then Ok(s)
    else match InferRole(cfg, email)
      case None => Err(Unprocessable)
      case Some(r) => Ok(s.(users := s.users[u := s.users[u].(role := r)]))
  }

  // ----- the tables, updated in place -----

  class AdminStore {
    var users: map<UserId, User>
    var memberships: map<(UserId, Scope), bool>

    ghost function Now(): State
      reads this
    {
      State(users, memberships)
    }

    method InviteAdmin(cfg: Settings, actor: UserId, email: string, role: Option<Scope>,
                       target: Option<UserId>, newId: UserId, authId: bool) returns (error: Option<Error>)
      requires target.Some? ==> target.value in users
      modifies this
      ensures var r := Invited(cfg, old(Now()), actor, email, role, target, newId, authId);
              match r case Ok(s) => error == None && Now() == s case Err(e) => error == Some(e) && Now() == old(Now())
    {
      if role == None {
        return Some(Unprocessable);
      }
      if !May(State(users, memberships), actor, role.value) {
        return Some(Forbidden);
      }
      var normalized := Normalize(cfg, email);
      if normalized == None {
        return Some(Unprocessable);
      }
      if target.Some? && (target.value, role.value) in memberships && memberships[(target.value, role.value)] {
        return Some(Conflict);
      }
      if target == None || !users[target.value].linked {
        if !authId {
          return Some(Unavailable);
        }
      }
      var u: UserId;
      if target == None {
        u := newId;
        users := users[u := User(normalized.value, AdminRole, true, false)];
      } else {
        u := target.value;
        users := users[u := users[u].(role := AdminRole)];
        if !users[u].linked {
          users := users[u := users[u].(linked := true)];
        }
      }
      memberships := memberships[(u, role.value) := true];
      assert old(users)[u := users[u]] == users;
      return None;
    }

    method DemoteIfNoScopesLeft(cfg: Settings, u: UserId)
      modifies this
      ensures Now() == Demoted(cfg, old(Now()), u)
    {
      if Scopes(State(users, memberships), u) == {} && u in users && users[u].role == AdminRole {
        var inferred := InferRole(cfg, users[u].email);
        users := users[u := users[u].(role := if inferred == None then Student else inferred.value)];
      }
    }

    method RevokeAdminMembership(cfg: Settings, actor: UserId, k: (UserId, Scope)) returns (error: Option<Error>)
      modifies this
      ensures match Revoked(cfg, old(Now()), actor, k)
              case Ok(s) => error == None && Now() == s
              case Err(e) => error == Some(e) && Now() == old(Now())
    {
      if k !in memberships {
        return Some(NotFound);
      }
      if !memberships[k] {
        return Some(Conflict);
      }
      if k.0 == actor && k.1 == SuperAdmin {
        return Some(Conflict);
      }
      if !May(State(users, memberships), actor, k.1) {
        return Some(Forbidden);
      }
      if k.1 == SuperAdmin && |SuperAdmins(State(users, memberships))| <= 1 {
        return Some(Conflict);
      }
      memberships := memberships[k := false];
      DemoteIfNoScopesLeft(cfg, k.0);
      return None;
    }

    method ResignAdminMembership(cfg: Settings, actor: UserId) returns (error: Option<Error>)
      modifies this
      ensures match Resigned(cfg, old(Now()), actor)
              case Ok(s) => error == None && Now() == s
              case Err(e) => error == Some(e) && Now() == old(Now())
    {
      var scopes := Scopes(State(users, memberships), actor);
      if scopes == {} || SuperAdmin in scopes {
        return Some(Conflict);
      }
      var todo := scopes;
      while todo != {}
        invariant users == old(users) && memberships.Keys == old(memberships).Keys && todo <= scopes
        invariant forall k | k in memberships ::
                    memberships[k] == (old(memberships)[k] && !(k.0 == actor && k.1 !in todo))
      {
        var r :| r in todo;
        memberships := memberships[(actor, r) := false];
        todo := todo - {r};
      }
      assert memberships == Retired(old(memberships), actor);
      DemoteIfNoScopesLeft(cfg, actor);
      return None;
    }
  }

  // ----- the invariant -----

  ghost predicate Inv(cfg: Settings, s: State) {
    (forall k | k in s.memberships && s.memberships[k] :: k.0 in s.users && !s.users[k.0].deleted) &&
    (forall u | u in s.users && !s.users[u].deleted :: s.users[u].role == AdminRole <==> Scopes(s, u) != {}) &&
    (forall u | u in s.users && s.users[u].deleted :: s.users[u].email == Tombstone(cfg, u)) &&
    SuperAdmins(s) != {}
  }

  lemma InferredIsNotAdmin(cfg: Settings, email: string)
    ensures InferRole(cfg, email) != Some(AdminRole)
  {
  }

  lemma InviteKeepsInv(cfg: Settings, s: State, actor: UserId, email: string, role: Option<Scope>,
                       target: Option<UserId>, newId: UserId, authId: bool)
    requires SettingsOk(cfg) && Inv(cfg, s) && newId !in s.users
    requires Normalize(cfg, email).Some? ==> Lookup(s, Normalize(cfg, email).value, target)
    requires target.Some? ==> target.value in s.users
    ensures var r := Invited(cfg, s, actor, email, role, target, newId, authId); r.Ok? ==> Inv(cfg, r.value)
  {
    var r := Invited(cfg, s, actor, email, role, target, newId, authId);
    if r.Ok? {
      var s' := r.value;
      var u := if target == None then newId else target.value;
      if target.Some? { TombstoneIsNotCampus(cfg, u, email); }
      assert role.value in Scopes(s', u) by { assert (u, role.value) in s'.memberships; }
      forall v | v != u ensures Scopes(s', v) == Scopes(s, v) {}
      assert SuperAdmins(s) <= SuperAdmins(s');
      assert forall k | k in s.memberships && s.memberships[k] && k.0 == newId :: false;
    }
  }

  lemma DemoteKeepsRest(cfg: Settings, s: State, u: UserId)
    ensures var s' := Demoted(cfg, s, u);
            s'.memberships == s.memberships && s'.users.Keys == s.users.Keys &&
            (forall v | v in s.users :: s'.users[v].(role := s.users[v].role) == s.users[v]) &&
            (forall v | v in s.users && v != u :: s'.users[v] == s.users[v]) &&
            (u in s.users && Scopes(s, u) == {} ==> s'.users[u].role != AdminRole) &&
            (Scopes(s, u) != {} ==> s' == s)
  {
  }

  lemma ShrinkKeepsInv(cfg: Settings, s: State, m: map<(UserId, Scope), bool>, u: UserId)
    requires Inv(cfg, s) && m.Keys == s.memberships.Keys
    requires forall k | k in m :: (m[k] ==> s.memberships[k]) && (k.0 != u ==> m[k] == s.memberships[k])
    requires SuperAdmins(s.(memberships := m)) != {} && Scopes(s, u) != {}
    ensures Inv(cfg, Demoted(cfg, s.(memberships := m), u))
  {
    var mid := s.(memberships := m);
    var s' := Demoted(cfg, mid, u);
    DemoteKeepsRest(cfg, mid, u);
    forall v ensures Scopes(s', v) == Scopes(mid, v) {}
    forall v | v != u ensures Scopes(mid, v) == Scopes(s, v) {}
    assert SuperAdmins(s') == SuperAdmins(mid);
    assert u in s.users by { var x :| x in Scopes(s, u); assert (u, x) in s.memberships; }
  }

  lemma RevokeKeepsInv(cfg: Settings, s: State, actor: UserId, k: (UserId, Scope))
    requires Inv(cfg, s)
    ensures var r := Revoked(cfg, s, actor, k); r.Ok? ==> Inv(cfg, r.value)
  {
    if Revoked(cfg, s, actor, k).Ok? {
      var m := s.memberships[k := false];
      assert k.1 in Scopes(s, k.0);
      OthersRemain(s, k);
      ShrinkKeepsInv(cfg, s, m, k.0);
    }
  }

  lemma OthersRemain(s: State, k: (UserId, Scope))
    requires k in s.memberships && s.memberships[k] && SuperAdmins(s) != {}
    requires k.1 == SuperAdmin ==> |SuperAdmins(s)| > 1
    ensures SuperAdmins(s.(memberships := s.memberships[k := false])) != {}
  {
    var after := SuperAdmins(s.(memberships := s.memberships[k := false]));
    if k.1 == SuperAdmin {
      assert k.0 in SuperAdmins(s);
      var rest := SuperAdmins(s) - {k.0};
      assert |rest| > 0;
      SomeElement(rest);
      var u :| u in rest;
      assert (u, SuperAdmin) in s.memberships;
      assert u in after;
    } else {
      SomeElement(SuperAdmins(s));
      var u :| u in SuperAdmins(s);
      assert (u, SuperAdmin) in s.memberships;
      assert u in after;
    }
  }

  lemma RetireLeaves(s: State, u: UserId)
    requires SuperAdmins(s) != {} && (SuperAdmin in Scopes(s, u) ==> |SuperAdmins(s)| > 1)
    ensures SuperAdmins(s.(memberships := Retired(s.memberships, u))) == SuperAdmins(s) - {u} != {}
  {
    var s' := s.(memberships := Retired(s.memberships, u));
    forall v ensures v in SuperAdmins(s') <==> v in SuperAdmins(s) && v != u {
      assert v in SuperAdmins(s') <==> (v, SuperAdmin) in s'.memberships && s'.memberships[(v, SuperAdmin)];
      assert v in SuperAdmins(s) <==> (v, SuperAdmin) in s.memberships && s.memberships[(v, SuperAdmin)];
    }
    if u in SuperAdmins(s) {
      assert (u, SuperAdmin) in s.memberships;
      assert SuperAdmin in Scopes(s, u);
      assert |SuperAdmins(s) - {u}| > 0;
    } else {
      assert SuperAdmins(s) - {u} == SuperAdmins(s);
    }
  }

  lemma ResignKeepsInv(cfg: Settings, s: State, actor: UserId)
    requires Inv(cfg, s)
    ensures var r := Resigned(cfg, s, actor); r.Ok? ==> Inv(cfg, r.value)
  {
    if Resigned(cfg, s, actor).Ok? {
      RetireLeaves(s, actor);
      ShrinkKeepsInv(cfg, s, Retired(s.memberships, actor), actor);
    }
  }

  lemma DeleteKeepsInv(cfg: Settings, s: State, u: UserId)
    requires Inv(cfg, s) && u in s.users
    ensures var r := AccountDeleted(cfg, s, u); r.Ok? ==> Inv(cfg, r.value)
  {
    var r := AccountDeleted(cfg, s, u);
    if r.Ok? {
      RetireLeaves(s, u);
      assert SuperAdmins(r.value) == SuperAdmins(s.(memberships := Retired(s.memberships, u)));
      forall v | v != u ensures Scopes(r.value, v) == Scopes(s, v) {}
    }
  }

  lemma SyncKeepsInv(cfg: Settings, s: State, u: UserId, email: string)
    requires Inv(cfg, s) && u in s.users
    ensures var r := Synced(cfg, s, u, email); r.Ok? ==> Inv(cfg, r.value)
  {
  }

  // ----- runs -----

  datatype Op =
    | Invite(actor: UserId, email: string, role: Option<Scope>, target: Option<UserId>, newId: UserId, authId: bool)
    | Revoke(actor: UserId, key: (UserId, Scope))
    | Resign(actor: UserId)
    | Delete(actor: UserId)
    | Sync(actor: UserId, email: string)
    | SignUp(actor: UserId, email: string)

  /** The request refers to rows as the database would: a looked-up target, a fresh id, a real user. */
  ghost predicate Possible(cfg: Settings, s: State, op: Op) {
    match op
    case Invite(_, email, _, target, newId, _) =>
      newId !in s.users && (target.Some? ==> target.value in s.users) &&
      (Normalize(cfg, email).Some? ==> Lookup(s, Normalize(cfg, email).value, target))
    case Delete(u) => u in s.users
    case Sync(u, _) => u in s.users
    case SignUp(u, _) => u !in s.users && forall k | k in s.memberships :: k.0 != u
    case _ => true
  }

  function Outcome(cfg: Settings, s: State, op: Op): Result<State, Error>
    requires Possible(cfg, s, op)
  {
    match op
    case Invite(actor, email, role, target, newId, authId) => Invited(cfg, s, actor, email, role, target, newId, authId)
    case Revoke(actor, k) => Revoked(cfg, s, actor, k)
    case Resign(actor) => Resigned(cfg, s, actor)
    case Delete(u) => AccountDeleted(cfg, s, u)
    case Sync(u, email) => Synced(cfg, s, u, email)
    case SignUp(u, email) =>
      match InferRole(cfg, email)
      case None => Err(Unprocessable)
      case Some(r) => Ok(s.(users := s.users[u := User(Normalize(cfg, email).value, r, true, false)]))
  }

  /** A refused request changes nothing. */
  ghost predicate Step(cfg: Settings, s: State, op: Op, s': State) {
    Possible(cfg, s, op) &&
    match Outcome(cfg, s, op) case Ok(t) => s' == t case Err(_) => s' == s
  }

  lemma StepKeepsInv(cfg: Settings, s: State, op: Op, s': State)
    requires SettingsOk(cfg) && Inv(cfg, s) && Step(cfg, s, op, s')
    ensures Inv(cfg, s')
  {
    match op
    case Invite(actor, email, role, target, newId, authId) =>
      InviteKeepsInv(cfg, s, actor, email, role, target, newId, authId);
    case Revoke(actor, k) => RevokeKeepsInv(cfg, s, actor, k);
    case Resign(actor) => ResignKeepsInv(cfg, s, actor);
    case Delete(u) => DeleteKeepsInv(cfg, s, u);
    case Sync(u, email) => SyncKeepsInv(cfg, s, u, email);
    case SignUp(u, email) =>
      InferredIsNotAdmin(cfg, email);
      forall v ensures Scopes(s', v) == Scopes(s, v) {}
      assert SuperAdmins(s') == SuperAdmins(s);
  }

  ghost predicate Run(cfg: Settings, states: seq<State>, ops: seq<Op>) {
    |states| == |ops| + 1 && forall i | 0 <= i < |ops| :: Step(cfg, states[i], ops[i], states[i + 1])
  }

  /** Over every run: a super admin always remains, every active membership belongs to a live user
      with the admin role, and a live user has that role exactly while holding some scope. */
  lemma {:induction false} RunKeepsInv(cfg: Settings, states: seq<State>, ops: seq<Op>, k: nat)
    requires SettingsOk(cfg) && Run(cfg, states, ops) && Inv(cfg, states[0]) && k < |states|
    ensures SuperAdmins(states[k]) != {}
    ensures forall m | m in states[k].memberships && states[k].memberships[m] ::
              m.0 in states[k].users && states[k].users[m.0].role == AdminRole && !states[k].users[m.0].deleted
    ensures forall u | u in states[k].users && !states[k].users[u].deleted ::
              states[k].users[u].role == AdminRole <==> Scopes(states[k], u) != {}
    ensures Inv(cfg, states[k])
  {
    if k > 0 {
      RunKeepsInv(cfg, states, ops, k - 1);
      StepKeepsInv(cfg, states[k - 1], ops[k - 1], states[k]);
    }
    forall m | m in states[k].memberships && states[k].memberships[m] ensures m.1 in Scopes(states[k], m.0) {}
  }

  predicate Holds(s: State, u: UserId, x: Scope) {
    (u, x) in s.memberships && s.memberships[(u, x)]
  }

  /** A super admin ranks above every scope, a school admin above the three operational ones. */
  predicate Ranks(s: State, actor: UserId, target: Scope) {
    Holds(s, actor, SuperAdmin) ||
    (Holds(s, actor, SchoolAdmin) && (target == HonorsAdmin || target == ContentAdmin || target == Auditor))
  }

  lemma MayIsRank(s: State, actor: UserId, target: Scope)
    ensures May(s, actor, target) <==> Ranks(s, actor, target)
  {
    assert forall x :: x in Scopes(s, actor) <==> Holds(s, actor, x) by {
      forall x ensures x in Scopes(s, actor) <==> Holds(s, actor, x) {
        if Holds(s, actor, x) { assert (actor, x).1 in Scopes(s, actor); }
      }
    }
  }

  /** A membership only ever becomes active by an invitation of someone who ranks above it. */
  lemma GrantsNeedRank(cfg: Settings, s: State, op: Op, s': State, k: (UserId, Scope))
    requires Step(cfg, s, op, s') && k in s'.memberships && s'.memberships[k]
    requires !(k in s.memberships && s.memberships[k])
    ensures op.Invite? && op.role == Some(k.1) && Ranks(s, op.actor, k.1)
  {
    MayIsRank(s, op.actor, k.1);
  }

  /** And it only ever becomes inactive when someone who ranks above it revokes it, or its holder
      resigns without being a super admin, or deletes the account. */
  lemma LossesHaveCause(cfg: Settings, s: State, op: Op, s': State, k: (UserId, Scope))
    requires Step(cfg, s, op, s') && Holds(s, k.0, k.1) && !Holds(s', k.0, k.1)
    ensures (op.Revoke? && op.key == k && Ranks(s, op.actor, k.1)) ||
            (op.Resign? && op.actor == k.0 && !Holds(s, k.0, SuperAdmin)) ||
            (op.Delete? && op.actor == k.0)
  {
    assert k == (k.0, k.1);
    MayIsRank(s, op.actor, k.1);
    if op.Revoke? && Outcome(cfg, s, op).Ok? {
      DemoteKeepsRest(cfg, s.(memberships := s.memberships[op.key := false]), op.key.0);
    }
    if op.Resign? && Outcome(cfg, s, op).Ok? {
      DemoteKeepsRest(cfg, s.(memberships := Retired(s.memberships, op.actor)), op.actor);
      ScopesAreHeld(s, k.0);
    }
  }

  lemma ScopesAreHeld(s: State, u: UserId)
    ensures forall x :: x in Scopes(s, u) <==> Holds(s, u, x)
  {
    forall x ensures x in Scopes(s, u) <==> Holds(s, u, x) {
      if Holds(s, u, x) { assert (u, x).1 in Scopes(s, u); }
    }
  }

  // ----- when a request succeeds, and what it then does -----

  lemma OthersCount(s: State, u: UserId)
    requires Holds(s, u, SuperAdmin)
    ensures |SuperAdmins(s)| <= 1 <==> forall v | Holds(s, v, SuperAdmin) :: v == u
  {
    assert forall v :: v in SuperAdmins(s) <==> Holds(s, v, SuperAdmin) by {
      forall v ensures v in SuperAdmins(s) <==> Holds(s, v, SuperAdmin) {
        if Holds(s, v, SuperAdmin) { assert (v, SuperAdmin).0 in SuperAdmins(s); }
      }
    }
    assert SuperAdmins(s) == {u} + (SuperAdmins(s) - {u});
    if forall v | Holds(s, v, SuperAdmin) :: v == u {
      forall v: UserId ensures v in SuperAdmins(s) <==> v in {u} {}
      assert SuperAdmins(s) == {u};
    } else {
      var v :| Holds(s, v, SuperAdmin) && v != u;
      assert v in SuperAdmins(s) - {u};
      assert |SuperAdmins(s) - {u}| > 0;
    }
  }

  /** Of all users at most the role of `u` changes: an admin left without a scope gets the role of their
      address, or student when it stands for none. */
  ghost predicate RoleSettled(cfg: Settings, s: State, s': State, u: UserId) {
    s'.users.Keys == s.users.Keys && (forall v | v in s.users && v != u :: s'.users[v] == s.users[v]) &&
    (u in s.users ==>
      s'.users[u] == s.users[u].(role :=
        if s.users[u].role != AdminRole || exists x :: Holds(s', u, x) then s.users[u].role
        else if InferRole(cfg, s.users[u].email).Some? then InferRole(cfg, s.users[u].email).value
        else Student))
  }

  lemma DemotedRole(cfg: Settings, s: State, u: UserId)
    ensures RoleSettled(cfg, s, Demoted(cfg, s, u), u) && Demoted(cfg, s, u).memberships == s.memberships
  {
    ScopesAreHeld(s, u);
    ScopesAreHeld(Demoted(cfg, s, u), u);
    assert (exists x :: Holds(Demoted(cfg, s, u), u, x)) <==> Scopes(Demoted(cfg, s, u), u) != {};
    assert Scopes(Demoted(cfg, s, u), u) == Scopes(s, u);
  }

  /** A revoke succeeds exactly when the membership is active, the actor ranks above it, it is not the
      actor's own super-admin row, and not the last one; what is missing decides the error. It then changes
      that membership, and settles the role of its holder. */
  lemma RevokeSucceedsIff(cfg: Settings, s: State, actor: UserId, k: (UserId, Scope))
    ensures Revoked(cfg, s, actor, k).Ok? <==>
              Holds(s, k.0, k.1) && Ranks(s, actor, k.1) && !(k.0 == actor && k.1 == SuperAdmin) &&
              (k.1 == SuperAdmin ==> exists v :: Holds(s, v, SuperAdmin) && v != k.0)
    ensures Revoked(cfg, s, actor, k) == Err(NotFound) <==> k !in s.memberships
    ensures Revoked(cfg, s, actor, k) == Err(Forbidden) <==>
              Holds(s, k.0, k.1) && !(k.0 == actor && k.1 == SuperAdmin) && !Ranks(s, actor, k.1)
    ensures Revoked(cfg, s, actor, k).Err? ==> Revoked(cfg, s, actor, k).error in {NotFound, Forbidden, Conflict}
    ensures Revoked(cfg, s, actor, k).Ok? ==>
              var s' := Revoked(cfg, s, actor, k).value;
              s'.memberships == s.memberships[k := false] && RoleSettled(cfg, s, s', k.0)
  {
    assert k == (k.0, k.1);
    MayIsRank(s, actor, k.1);
    if Holds(s, k.0, SuperAdmin) { OthersCount(s, k.0); }
    if k in s.memberships { DemotedRole(cfg, s.(memberships := s.memberships[k := false]), k.0); }
    hide May, Ranks, Demoted;
  }

  /** Resigning succeeds exactly for someone with a scope who is no super admin, and gives up all of them; the
      role is settled. */
  lemma ResignSucceedsIff(cfg: Settings, s: State, actor: UserId)
    ensures Resigned(cfg, s, actor).Ok? <==> (exists x :: Holds(s, actor, x)) && !Holds(s, actor, SuperAdmin)
    ensures Resigned(cfg, s, actor).Ok? ==>
              var s' := Resigned(cfg, s, actor).value;
              (forall u, x :: Holds(s', u, x) <==> Holds(s, u, x) && u != actor) && RoleSettled(cfg, s, s', actor)
  {
    ScopesAreHeld(s, actor);
    DemotedRole(cfg, s.(memberships := Retired(s.memberships, actor)), actor);
    hide Demoted;
  }

  /** An account can be deleted unless its holder is the only super admin; it then holds no scope, keeps
      no email and no login, and nobody else changes. */
  lemma DeleteSucceedsIff(cfg: Settings, s: State, u: UserId)
    requires u in s.users
    ensures AccountDeleted(cfg, s, u).Ok? <==>
              (Holds(s, u, SuperAdmin) ==> exists v :: Holds(s, v, SuperAdmin) && v != u)
    ensures AccountDeleted(cfg, s, u).Ok? ==>
              var s' := AccountDeleted(cfg, s, u).value;
              (forall v, x :: Holds(s', v, x) <==> Holds(s, v, x) && v != u) && s'.users.Keys == s.users.Keys &&
              s'.users[u] == User("deleted+" + cfg.idText(u) + "@deleted.invalid", s.users[u].role, false, true) &&
              forall v | v in s.users && v != u :: s'.users[v] == s.users[v]
  {
    ScopesAreHeld(s, u);
    if Holds(s, u, SuperAdmin) { OthersCount(s, u); }
    assert ("deleted+" + cfg.idText(u)) + ("@" + DELETED_DOMAIN) == "deleted+" + cfg.idText(u) + "@deleted.invalid";
  }

  /** An invitation succeeds exactly when the role exists, the actor ranks above it, the email is a campus
      address, its user does not hold the role yet, and there is an identity to link. It then grants that
      membership, makes the user a linked admin, and changes nothing else. */
  lemma InviteSucceedsIff(cfg: Settings, s: State, actor: UserId, email: string, role: Option<Scope>,
                          target: Option<UserId>, newId: UserId, authId: bool)
    requires target.Some? ==> target.value in s.users
    requires newId !in s.users && forall x :: !Holds(s, newId, x)
    ensures var r := Invited(cfg, s, actor, email, role, target, newId, authId);
            var u := if target == None then newId else target.value;
            (r.Ok? <==> role.Some? && Ranks(s, actor, role.value) && Normalize(cfg, email).Some? &&
                        !Holds(s, u, role.value) && ((target.Some? && s.users[u].linked) || authId)) &&
            (r == Err(Forbidden) <==> role.Some? && !Ranks(s, actor, role.value)) &&
            (r == Err(Unprocessable) <==>
              role == None || (Ranks(s, actor, role.value) && Normalize(cfg, email) == None)) &&
            (r.Err? && role.Some? && Ranks(s, actor, role.value) && Normalize(cfg, email).Some? ==>
               r.error == if Holds(s, u, role.value) then Conflict else Unavailable) &&
            (r.Ok? ==>
               r.value.memberships == s.memberships[(u, role.value) := true] &&
               r.value.users.Keys == s.users.Keys + {u} &&
               (forall v | v in s.users && v != u :: r.value.users[v] == s.users[v]) &&
               r.value.users[u].role == AdminRole && r.value.users[u].linked &&
               (target == None ==>
                  Some(r.value.users[u].email) == Normalize(cfg, email) && !r.value.users[u].deleted) &&
               (target.Some? ==>
                  r.value.users[u].email == s.users[u].email && r.value.users[u].deleted == s.users[u].deleted))
  {
    if role.Some? { MayIsRank(s, actor, role.value); }
    hide May, Ranks, Normalize;
  }

  /** The role an address stands for, by its domain; a test address may pin its own, but never admin. */
  lemma RoleOfAddress(cfg: Settings, name: string, domain: string)
    requires '@' !in domain && cfg.clean(name + ("@" + domain)) == name + ("@" + domain)
    ensures var e := name + ("@" + domain);
            var accepted := domain in cfg.allowedDomains || (e in cfg.devRoles && cfg.devPermitted);
            InferRole(cfg, e) ==
            if !accepted then None
            else if e in cfg.devRoles then (if cfg.devRoles[e] == AdminRole then None else Some(cfg.devRoles[e]))
            else if domain == "students.livingstone.edu" then Some(Student)
            else if domain == "livingstone.edu" then Some(Staff)
            else None
  {
    DomainOfJoined(name, domain);
    assert (name + ("@" + domain))[|name|] == '@';
  }

  /** Syncing is refused exactly for someone who is no admin with an address that stands for no role. Otherwise
      whoever was an admin still is, anyone else has the role of the address, nothing else changes, and syncing
      again with the same address changes nothing more. */
  lemma SyncGivesRole(cfg: Settings, s: State, u: UserId, email: string)
    requires u in s.users
    ensures Synced(cfg, s, u, email).Err? <==> s.users[u].role != AdminRole && InferRole(cfg, email) == None
    ensures Synced(cfg, s, u, email).Ok? ==>
              var s' := Synced(cfg, s, u, email).value;
              s'.memberships == s.memberships && u in s'.users &&
              s'.users == s.users[u := s.users[u].(role := s'.users[u].role)] &&
              Some(s'.users[u].role) ==
                (if s.users[u].role == AdminRole then Some(AdminRole) else InferRole(cfg, email)) &&
              Synced(cfg, s', u, email) == Ok(s')
  {
    InferredIsNotAdmin(cfg, email);
    if Synced(cfg, s, u, email).Ok? {
      var s' := Synced(cfg, s, u, email).value;
      assert s'.users[u := s'.users[u].(role := s'.users[u].role)] == s'.users;
      assert s.users[u := s.users[u]] == s.users;
    }
  }

  predicate Privileged(s: State, k: (UserId, Scope)) {
    k in s.memberships && s.memberships[k] && (k.1 == SuperAdmin || k.1 == SchoolAdmin)
  }

  /** Without a super admin acting, nobody ever becomes a super admin or a school admin. */
  lemma {:induction false} NoEscalation(cfg: Settings, states: seq<State>, ops: seq<Op>, k: nat, m: (UserId, Scope))
    requires Run(cfg, states, ops) && k < |states| && Privileged(states[k], m)
    requires forall i | 0 <= i < k :: SuperAdmin !in Scopes(states[i], ops[i].actor)
    ensures Privileged(states[0], m)
  {
    if k > 0 {
      if !Privileged(states[k - 1], m) { GrantsNeedRank(cfg, states[k - 1], ops[k - 1], states[k], m); }
      NoEscalation(cfg, states, ops, k - 1, m);
    }
  }

  /** The last super admin can be removed neither by themselves nor by anyone else. */
  lemma LastSuperAdminStays(cfg: Settings, s: State, op: Op, s': State, u: UserId)
    requires SettingsOk(cfg) && Inv(cfg, s) && Step(cfg, s, op, s') && SuperAdmins(s) == {u}
    ensures u in SuperAdmins(s')
  {
    StepKeepsInv(cfg, s, op, s');
    if !op.Invite? || Outcome(cfg, s, op).Err? {
      SomeElement(SuperAdmins(s'));
      var v :| v in SuperAdmins(s');
      assert (v, SuperAdmin) in s'.memberships;
      if v != u {
        assert (v, SuperAdmin) in s.memberships && s.memberships[(v, SuperAdmin)] ==> v in SuperAdmins(s);
        GrantsNeedRank(cfg, s, op, s', (v, SuperAdmin));
      }
    } else {
      assert (u, SuperAdmin) in s.memberships;
      assert (u, SuperAdmin) in s'.memberships && s'.memberships[(u, SuperAdmin)];
    }
  }
}
