/**
 Publishing an employer submission: `publish_submission` of backend/app/shared/employer_publishing.py
 inside `approve_submission` / `reject_submission` of backend/app/features/admin/employers.py, beside the
 routes that archive any post and publish any draft (features/campus_hub/publishing.py).

 Each commit is one step. An attempt may crash between any two commits and be retried any number of
 times; attempts on one submission do not overlap. `create_post` and `publish_post` are one commit each.
 The session keeps what it has loaded, so an attempt decides on the status it saw when it loaded the post.
 */
module Publishing {
  import opened Prelude

  type SubId = int
  type PostId = int

  datatype Review = Pending | Approved | Rejected

  datatype Submission = Submission(review: Review, link: Option<PostId>)

  datatype PostStatus = Draft | Published | Archived

  datatype Source = Campus | Employer

  /** `made` is the submission the post's content was taken from; it is not a column. */
  datatype Post = Post(made: SubId, source: Source, scholarsOnly: bool, status: PostStatus)

  datatype Tables = Tables(subs: map<SubId, Submission>, posts: map<PostId, Post>)

  // ----- the commits -----

  function Created(db: Tables, s: SubId, p: PostId): Tables {
    db.(posts := db.posts[p := Post(s, Campus, false, Draft)])
  }

  function Linked(db: Tables, s: SubId, p: PostId): Tables
    requires s in db.subs && p in db.posts
  {
    Tables(db.subs[s := db.subs[s].(link := Some(p))],
           db.posts[p := db.posts[p].(source := Employer, scholarsOnly := true)])
  }

  function Live(db: Tables, p: PostId): Tables
    requires p in db.posts
  {
    db.(posts := db.posts[p := db.posts[p].(status := Published)])
  }

  function Reviewed(db: Tables, s: SubId, r: Review): Tables
    requires s in db.subs
  {
    db.(subs := db.subs[s := db.subs[s].(review := r)])
  }

  // ----- an attempt, step by step -----

  /** Where the running attempt on a submission stands; nothing is kept across a crash. */
  datatype Pc = Idle | AtLink(p: PostId) | AtPublish(p: PostId, saw: PostStatus) | AtApprove(p: PostId)

  /** `shown` are the posts an attempt has published, `byHand` those published through the admin route;
      neither is a column. */
  datatype World = World(db: Tables, pcs: map<SubId, Pc>, shown: set<PostId>, byHand: set<PostId>)

  const START := World(Tables(map[], map[]), map[], {}, {})

  function At(w: World, s: SubId): Pc {
    if s in w.pcs then w.pcs[s] else Idle
  }

  function To(w: World, s: SubId, db: Tables, pc: Pc): World {
    w.(db := db, pcs := w.pcs[s := pc])
  }

  /** `newId` is the id of a new post, used only when none is linked. */
  ghost predicate Advance(w: World, s: SubId, newId: PostId, w': World) {
    s in w.db.subs &&
    match At(w, s)
    case Idle =>
      w.db.subs[s].review == Pending &&
      (match w.db.subs[s].link
       case Some(p) => p in w.db.posts && w' == To(w, s, w.db, AtPublish(p, w.db.posts[p].status))
       case None => newId !in w.db.posts && w' == To(w, s, Created(w.db, s, newId), AtLink(newId)))
    case AtLink(p) => p in w.db.posts && w' == To(w, s, Linked(w.db, s, p), AtPublish(p, w.db.posts[p].status))
    case AtPublish(p, saw) =>
      p in w.db.posts &&
      (match saw
       case Published => w' == To(w, s, w.db, AtApprove(p))
       case Draft => w' == To(w, s, Live(w.db, p), AtApprove(p)).(shown := w.shown + {p})
       case Archived => w' == To(w, s, w.db, Idle))  // 409: only drafts can be published
    case AtApprove(_) => w' == To(w, s, Reviewed(w.db, s, Approved), Idle)
  }

  ghost predicate Crash(w: World, s: SubId, w': World) {
    w' == To(w, s, w.db, Idle)
  }

  ghost predicate Reject(w: World, s: SubId, w': World) {
    s in w.db.subs && At(w, s) == Idle && w.db.subs[s].review == Pending && w' == w.(db := Reviewed(w.db, s, Rejected))
  }

  ghost predicate Submit(w: World, s: SubId, w': World) {
    s !in w.db.subs && At(w, s) == Idle && (forall p | p in w.db.posts :: w.db.posts[p].made != s) &&
    w' == w.(db := w.db.(subs := w.db.subs[s := Submission(Pending, None)]))
  }

  /** `archive_post`, of any post. */
  ghost predicate Archive(w: World, p: PostId, w': World) {
    p in w.db.posts && w.db.posts[p].status != Archived &&
    w' == w.(db := w.db.(posts := w.db.posts[p := w.db.posts[p].(status := Archived)]))
  }

  /** The admin's own `publish_post`, of any draft. */
  ghost predicate PublishByHand(w: World, p: PostId, w': World) {
    p in w.db.posts && w.db.posts[p].status == Draft && w' == w.(db := Live(w.db, p), byHand := w.byHand + {p})
  }

  ghost predicate Next(w: World, w': World) {
    (exists s, newId :: Advance(w, s, newId, w')) || (exists s :: Crash(w, s, w')) ||
    (exists s :: Reject(w, s, w')) || (exists s :: Submit(w, s, w')) ||
    (exists p :: Archive(w, p, w')) || (exists p :: PublishByHand(w, p, w'))
  }

  ghost predicate Run(trace: seq<World>) {
    |trace| > 0 && trace[0] == START &&
    forall k | 0 <= k < |trace| - 1 :: Next(trace[k], trace[k + 1])
  }

  // ----- the invariant -----

  /** The post has been live at some time. */
  predicate WentLive(w: World, p: PostId) {
    p in w.shown || p in w.byHand
  }

  ghost predicate SubOk(w: World, s: SubId)
    requires s in w.db.subs
  {
    match w.db.subs[s].link
    case None => w.db.subs[s].review != Approved
    case Some(p) =>
      p in w.db.posts && w.db.posts[p].made == s && w.db.posts[p].source == Employer && w.db.posts[p].scholarsOnly &&
      (w.db.subs[s].review == Approved ==> WentLive(w, p))
  }

  ghost predicate PcOk(w: World, s: SubId) {
    At(w, s) != Idle ==>
      s in w.db.subs && w.db.subs[s].review == Pending &&
      match At(w, s)
      case AtLink(p) =>
        w.db.subs[s].link == None && p in w.db.posts && w.db.posts[p].made == s &&
        w.db.posts[p].source == Campus && !w.db.posts[p].scholarsOnly
      case AtPublish(p, saw) => w.db.subs[s].link == Some(p) && (saw == Published ==> WentLive(w, p))
      case AtApprove(p) => w.db.subs[s].link == Some(p) && WentLive(w, p)
  }

  /** A post that an attempt published is the linked one, and a published post was published somehow. */
  ghost predicate PostOk(w: World, p: PostId)
    requires p in w.db.posts
  {
    w.db.posts[p].made in w.db.subs && (w.db.posts[p].status == Published ==> WentLive(w, p)) &&
    (p in w.shown ==> w.db.subs[w.db.posts[p].made].link == Some(p))
  }

  ghost predicate Inv(w: World) {
    (forall s | s in w.db.subs :: SubOk(w, s)) && (forall s :: PcOk(w, s)) &&
    (forall p | p in w.db.posts :: PostOk(w, p)) && w.shown <= w.db.posts.Keys && w.byHand <= w.db.posts.Keys
  }

  lemma AdvanceKeepsInv(w: World, s: SubId, newId: PostId, w': World)
    requires Inv(w) && Advance(w, s, newId, w')
    ensures Inv(w')
  {
    assert PcOk(w, s) && SubOk(w, s);
    forall t | t in w'.db.subs ensures SubOk(w', t) { assert SubOk(w, t); }
    forall t ensures PcOk(w', t) { assert PcOk(w, t); }
    forall p | p in w'.db.posts ensures PostOk(w', p) {
      if p in w.db.posts { assert PostOk(w, p); }
    }
  }

  lemma NextKeepsInv(w: World, w': World)
    requires Inv(w) && Next(w, w')
    ensures Inv(w')
  {
    if s, newId :| Advance(w, s, newId, w') {
      AdvanceKeepsInv(w, s, newId, w');
    } else if p :| Archive(w, p, w') || PublishByHand(w, p, w') {
      PostStepKeepsInv(w, p, w');
    } else {
      SubStepKeepsInv(w, w');
    }
  }

  lemma PostStepKeepsInv(w: World, p: PostId, w': World)
    requires Inv(w) && (Archive(w, p, w') || PublishByHand(w, p, w'))
    ensures Inv(w')
  {
    forall t | t in w'.db.subs ensures SubOk(w', t) { assert SubOk(w, t); }
    forall t ensures PcOk(w', t) { assert PcOk(w, t); }
    forall q | q in w'.db.posts ensures PostOk(w', q) { assert PostOk(w, q); }
  }

  lemma SubStepKeepsInv(w: World, w': World)
    requires Inv(w)
    requires (exists s :: Crash(w, s, w')) || (exists s :: Reject(w, s, w')) || (exists s :: Submit(w, s, w'))
    ensures Inv(w')
  {
    forall t | t in w'.db.subs ensures SubOk(w', t) {
      if t in w.db.subs { assert SubOk(w, t); }
    }
    forall t ensures PcOk(w', t) { assert PcOk(w, t); }
    forall q | q in w'.db.posts ensures PostOk(w', q) { assert PostOk(w, q); }
  }

  lemma {:induction false} RunKeepsInv(trace: seq<World>, k: nat)
    requires Run(trace) && k < |trace|
    ensures Inv(trace[k])
  {
    if k > 0 {
      RunKeepsInv(trace, k - 1);
      NextKeepsInv(trace[k - 1], trace[k]);
    }
  }

  /** Whatever crashes, retries, archiving and publishing by hand happen, attempts ever publish at most
      one post of a submission: the linked one, attributed to the employer and limited to scholars. */
  lemma AtMostOneLivePost(trace: seq<World>, k: nat, p: PostId, q: PostId)
    requires Run(trace) && k < |trace| && p in trace[k].shown && q in trace[k].shown
    requires p in trace[k].db.posts && q in trace[k].db.posts && trace[k].db.posts[p].made == trace[k].db.posts[q].made
    ensures p == q
    ensures var db, s := trace[k].db, trace[k].db.posts[p].made;
            s in db.subs && db.subs[s].link == Some(p) && db.posts[p].source == Employer && db.posts[p].scholarsOnly
  {
    RunKeepsInv(trace, k);
    assert PostOk(trace[k], p) && PostOk(trace[k], q);
    assert SubOk(trace[k], trace[k].db.posts[p].made);
  }

  /** So of all posts made from a submission, whatever is live without being the linked one was
      published by hand. */
  lemma SecondLivePostIsByHand(trace: seq<World>, k: nat, p: PostId)
    requires Run(trace) && k < |trace| && p in trace[k].db.posts && trace[k].db.posts[p].status == Published
    ensures var db, s := trace[k].db, trace[k].db.posts[p].made;
            s in db.subs && (db.subs[s].link == Some(p) || p in trace[k].byHand)
  {
    RunKeepsInv(trace, k);
    assert PostOk(trace[k], p);
  }

  /** The linked post of an approved submission has been published. */
  lemma ApprovedIsLive(trace: seq<World>, k: nat, s: SubId)
    requires Run(trace) && k < |trace| && s in trace[k].db.subs && trace[k].db.subs[s].review == Approved
    ensures trace[k].db.subs[s].link.Some? && WentLive(trace[k], trace[k].db.subs[s].link.value)
  {
    RunKeepsInv(trace, k);
    assert SubOk(trace[k], s);
  }

  lemma NextKeepsLink(w: World, w': World, s: SubId)
    requires Inv(w) && Next(w, w') && s in w.db.subs
    ensures s in w'.db.subs && (w.db.subs[s].link.Some? ==> w'.db.subs[s].link == w.db.subs[s].link)
  {
    if t, newId :| Advance(w, t, newId, w') { assert PcOk(w, t); }
  }

  /** Once set, the link of a submission never changes. */
  lemma {:induction false} LinkIsStable(trace: seq<World>, i: nat, k: nat, s: SubId)
    requires Run(trace) && i <= k < |trace| && s in trace[i].db.subs && trace[i].db.subs[s].link.Some?
    ensures s in trace[k].db.subs && trace[k].db.subs[s].link == trace[i].db.subs[s].link
  {
    hide Inv, Next;
    if i < k {
      LinkIsStable(trace, i, k - 1, s);
      RunKeepsInv(trace, k - 1);
      NextKeepsLink(trace[k - 1], trace[k], s);
    }
  }

  /** A post that no submission and no running attempt refers to, and no attempt has published. */
  ghost predicate Orphan(w: World, p: PostId) {
    p in w.db.posts && p !in w.shown && w.db.posts[p].source == Campus && !w.db.posts[p].scholarsOnly &&
    (forall s | s in w.db.subs :: w.db.subs[s].link != Some(p)) && forall s :: At(w, s) != AtLink(p)
  }

  /** A crash between the first two commits leaves an orphan. */
  lemma CrashOrphans(w: World, s: SubId, p: PostId, w': World)
    requires Inv(w) && At(w, s) == AtLink(p) && Crash(w, s, w')
    ensures Orphan(w', p)
  {
    assert PcOk(w, s) && PostOk(w, p);
    forall t | t in w'.db.subs ensures w'.db.subs[t].link != Some(p) { assert SubOk(w, t); }
    forall t ensures At(w', t) != AtLink(p) { assert PcOk(w, t); }
  }

  lemma OrphanAdvance(w: World, s: SubId, newId: PostId, w': World, p: PostId)
    requires PcOk(w, s) && Orphan(w, p) && Advance(w, s, newId, w')
    ensures Orphan(w', p)
  {
    assert At(w, s) != AtLink(p) && w.db.subs[s].link != Some(p);
    forall t ensures At(w', t) != AtLink(p) { assert At(w, t) != AtLink(p); }
  }

  lemma OrphanStep(w: World, w': World, p: PostId)
    requires Inv(w) && Next(w, w') && Orphan(w, p)
    ensures Orphan(w', p)
  {
    if s, newId :| Advance(w, s, newId, w') {
      assert PcOk(w, s);
      OrphanAdvance(w, s, newId, w', p);
    } else {
      forall t ensures At(w', t) != AtLink(p) { assert At(w, t) != AtLink(p); }
    }
  }

  lemma {:induction false} OrphanForEver(trace: seq<World>, i: nat, k: nat, p: PostId)
    requires Run(trace) && i <= k < |trace| && Orphan(trace[i], p)
    ensures Orphan(trace[k], p)
  {
    hide Orphan, Inv, Next;
    if i < k {
      OrphanForEver(trace, i, k - 1, p);
      RunKeepsInv(trace, k - 1);
      OrphanStep(trace[k - 1], trace[k], p);
    }
  }

  /** A post left unlinked by a crash is never linked and never published by an attempt; if it is live,
      somebody published it by hand, and then it is not limited to scholars. */
  lemma OrphanNeedsHand(trace: seq<World>, i: nat, k: nat, p: PostId)
    requires Run(trace) && i <= k < |trace| && Orphan(trace[i], p)
    ensures Orphan(trace[k], p) && (trace[k].db.posts[p].status == Published ==> p in trace[k].byHand)
  {
    OrphanForEver(trace, i, k, p);
    RunKeepsInv(trace, k);
    assert PostOk(trace[k], p);
  }

  // ----- an attempt that does not crash, as the code runs it -----

  class Publisher {
    var subs: map<SubId, Submission>
    var posts: map<PostId, Post>

    ghost function Now(): Tables
      reads this
    {
      Tables(subs, posts)
    }

    /** `publish_submission`; `conflict` is the 409 of `publish_post` on an archived post. */
    method PublishSubmission(s: SubId, newId: PostId) returns (post: PostId, conflict: bool)
      requires s in subs && newId !in posts && (subs[s].link.Some? ==> subs[s].link.value in posts)
      modifies this
      ensures post == PostFor(old(Now()), s, newId)
      ensures conflict <==> old(subs)[s].link.Some? && old(posts)[old(subs)[s].link.value].status == Archived
      ensures Now() == if conflict then old(Now()) else Live(WithLinkedDraft(old(Now()), s, newId), post)
    {
      if subs[s].link.Some? {
        post := subs[s].link.value;
      } else {
        post := newId;
        posts := posts[post := Post(s, Campus, false, Draft)];
        posts := posts[post := posts[post].(source := Employer, scholarsOnly := true)];
        subs := subs[s := subs[s].(link := Some(post))];
      }
      conflict := false;
      if posts[post].status != Published {
        if posts[post].status != Draft {
          return post, true;
        }
        posts := posts[post := posts[post].(status := Published)];
      }
      assert posts[post := posts[post].(status := Published)] == posts;
    }

    method ApproveSubmission(s: SubId, newId: PostId) returns (ok: bool)
      requires s in subs && newId !in posts && (subs[s].link.Some? ==> subs[s].link.value in posts)
      modifies this
      ensures ok <==> old(subs)[s].review == Pending &&
                      (old(subs)[s].link.Some? ==> old(posts)[old(subs)[s].link.value].status != Archived)
      ensures Now() == if ok then Attempted(old(Now()), s, newId) else old(Now())
    {
      if subs[s].review != Pending {
        return false;
      }
      var post, conflict := PublishSubmission(s, newId);
      if conflict {
        return false;
      }
      subs := subs[s := subs[s].(review := Approved)];
      return true;
    }
  }

  function PostFor(db: Tables, s: SubId, newId: PostId): PostId
    requires s in db.subs
  {
    match db.subs[s].link case Some(p) => p case None => newId
  }

  function WithLinkedDraft(db: Tables, s: SubId, newId: PostId): (r: Tables)
    requires s in db.subs && (db.subs[s].link.Some? ==> db.subs[s].link.value in db.posts)
    ensures PostFor(db, s, newId) in r.posts && s in r.subs
  {
    if db.subs[s].link.Some? then db else Linked(Created(db, s, newId), s, newId)
  }

  function Attempted(db: Tables, s: SubId, newId: PostId): Tables
    requires s in db.subs && (db.subs[s].link.Some? ==> db.subs[s].link.value in db.posts)
  {
    Reviewed(Live(WithLinkedDraft(db, s, newId), PostFor(db, s, newId)), s, Approved)
  }

  /** What an approval leaves: the submission approved, its linked post published, and where there was none a
      new one attributed to the employer and limited to scholars; every other row is as before. */
  lemma ApprovalCompletes(db: Tables, s: SubId, newId: PostId)
    requires s in db.subs && newId !in db.posts && (db.subs[s].link.Some? ==> db.subs[s].link.value in db.posts)
    ensures var r, link := Attempted(db, s, newId), db.subs[s].link;
            r.subs == db.subs[s := Submission(Approved, if link.Some? then link else Some(newId))] &&
            r.posts == if link.Some? then db.posts[link.value := db.posts[link.value].(status := Published)]
                       else db.posts[newId := Post(s, Employer, true, Published)]
  {
  }

  /** A crash-free approval is a run of the steps above, so all their properties apply to it. */
  lemma AttemptIsRun(w: World, s: SubId, newId: PostId) returns (trace: seq<World>)
    requires Inv(w) && s in w.db.subs && w.db.subs[s].review == Pending && At(w, s) == Idle && newId !in w.db.posts
    requires WithLinkedDraft(w.db, s, newId).posts[PostFor(w.db, s, newId)].status != Archived
    ensures |trace| > 0 && trace[0] == w
    ensures var end, p := trace[|trace| - 1], PostFor(w.db, s, newId);
            end == To(w, s, Attempted(w.db, s, newId), Idle).(shown := end.shown) &&
            w.shown <= end.shown <= w.shown + {p} &&
            WentLive(end, p)
    ensures forall k | 0 <= k < |trace| - 1 :: Next(trace[k], trace[k + 1])
  {
    var p := PostFor(w.db, s, newId);
    var db := WithLinkedDraft(w.db, s, newId);
    var w2 := To(w, s, db, AtPublish(p, db.posts[p].status));
    var prefix := LinkSteps(w, s, newId);
    KeepsInvTo(prefix);
    var rest := PublishSteps(w2, s, p);
    trace := prefix + rest[1..];
    hide Next, Inv, WithLinkedDraft, PostFor;
    StepsJoin(prefix, rest);
  }

  lemma StepsJoin(prefix: seq<World>, rest: seq<World>)
    requires |prefix| > 0 && |rest| > 0 && prefix[|prefix| - 1] == rest[0]
    requires forall k | 0 <= k < |prefix| - 1 :: Next(prefix[k], prefix[k + 1])
    requires forall k | 0 <= k < |rest| - 1 :: Next(rest[k], rest[k + 1])
    ensures var trace := prefix + rest[1..];
            trace[0] == prefix[0] && trace[|trace| - 1] == rest[|rest| - 1] &&
            forall k | 0 <= k < |trace| - 1 :: Next(trace[k], trace[k + 1])
  {
    hide Next;
    var trace := prefix + rest[1..];
    forall k | 0 <= k < |trace| - 1 ensures Next(trace[k], trace[k + 1]) {
      if k >= |prefix| - 1 { assert trace[k] == rest[k + 1 - |prefix|] && trace[k + 1] == rest[k + 2 - |prefix|]; }
    }
  }

  ghost predicate Steps(trace: seq<World>, w: World, w': World) {
    |trace| > 0 && trace[0] == w && trace[|trace| - 1] == w' &&
    forall k | 0 <= k < |trace| - 1 :: Next(trace[k], trace[k + 1])
  }

  lemma {:induction false} KeepsInvTo(trace: seq<World>)
    requires |trace| > 0 && Inv(trace[0]) && forall k | 0 <= k < |trace| - 1 :: Next(trace[k], trace[k + 1])
    ensures Inv(trace[|trace| - 1])
  {
    hide Next, Inv;
    if |trace| > 1 {
      NextKeepsInv(trace[0], trace[1]);
      KeepsInvTo(trace[1..]);
    }
  }

  /** Up to the publish: finding the linked post, or creating, marking and linking one. */
  lemma LinkSteps(w: World, s: SubId, newId: PostId) returns (trace: seq<World>)
    requires Inv(w) && s in w.db.subs && w.db.subs[s].review == Pending && At(w, s) == Idle && newId !in w.db.posts
    ensures w.db.subs[s].link.Some? ==> w.db.subs[s].link.value in w.db.posts
    ensures var p, db := PostFor(w.db, s, newId), WithLinkedDraft(w.db, s, newId);
            Steps(trace, w, To(w, s, db, AtPublish(p, db.posts[p].status)))
  {
    assert SubOk(w, s);
    var p, db := PostFor(w.db, s, newId), WithLinkedDraft(w.db, s, newId);
    var w1 := To(w, s, Created(w.db, s, newId), AtLink(newId));
    var w2 := To(w, s, db, AtPublish(p, db.posts[p].status));
    if w.db.subs[s].link.Some? {
      assert Advance(w, s, newId, w2);
      trace := [w, w2];
    } else {
      assert Advance(w, s, newId, w1) && Advance(w1, s, newId, w2);
      trace := [w, w1, w2];
    }
  }

  lemma PublishSteps(w: World, s: SubId, p: PostId) returns (trace: seq<World>)
    requires Inv(w) && s in w.db.subs && p in w.db.posts
    requires At(w, s) == AtPublish(p, w.db.posts[p].status) && w.db.posts[p].status != Archived
    ensures |trace| == 3 && trace[0] == w && Next(w, trace[1]) && Next(trace[1], trace[2])
    ensures trace[2] == To(w, s, Reviewed(Live(w.db, p), s, Approved), Idle).(shown := trace[2].shown)
    ensures w.shown <= trace[2].shown <= w.shown + {p} && WentLive(trace[2], p)
  {
    var shown := if w.db.posts[p].status == Published then w.shown else w.shown + {p};
    var w3 := To(w, s, Live(w.db, p), AtApprove(p)).(shown := shown);
    var w4 := To(w3, s, Reviewed(w3.db, s, Approved), Idle);
    if w.db.posts[p].status == Published {
      assert Live(w.db, p).posts == w.db.posts;
      assert PostOk(w, p);
    }
    assert Advance(w, s, p, w3) && Advance(w3, s, p, w4);
    trace := [w, w3, w4];
  }

  // ----- rejecting a submission whose post is live -----

  /** A rejection leaves the submission's published post behind exactly when the linked post is published
      already, which the admin can see before rejecting; unlinked ones published by hand aside. */
  lemma RejectLeavesLiveIff(w: World, s: SubId, w': World)
    requires Inv(w) && Reject(w, s, w')
    ensures (exists p :: p in w'.db.posts && w'.db.posts[p].made == s && w'.db.posts[p].status == Published &&
                         (p in w'.byHand ==> w'.db.subs[s].link == Some(p))) <==>
              var link := w.db.subs[s].link;
              link.Some? && link.value in w.db.posts && w.db.posts[link.value].status == Published
  {
    assert SubOk(w, s);
    var link := w.db.subs[s].link;
    if p :| p in w'.db.posts && w'.db.posts[p].made == s && w'.db.posts[p].status == Published &&
            (p in w'.byHand ==> w'.db.subs[s].link == Some(p)) {
      assert PostOk(w, p);
    }
    if link.Some? && link.value in w.db.posts && w.db.posts[link.value].status == Published {
      assert w'.db.posts[link.value].made == s;
    }
  }

  /** Earlier in the run, an attempt on the submission crashed after publishing, before approving. */
  ghost predicate CrashedAtApprove(trace: seq<World>, k: nat, s: SubId) {
    k < |trace| && exists j: nat :: CrashAt(trace, j, s) && j < k
  }

  ghost predicate CrashAt(trace: seq<World>, j: nat, s: SubId) {
    j + 1 < |trace| && At(trace[j], s).AtApprove? && Crash(trace[j], s, trace[j + 1])
  }

  /** An attempt has published the post, the review is not approved, and no attempt is about to approve it. */
  ghost predicate OutUnapproved(w: World, s: SubId) {
    s in w.db.subs && w.db.subs[s].review != Approved && w.db.subs[s].link.Some? &&
    w.db.subs[s].link.value in w.shown && !At(w, s).AtApprove?
  }

  lemma AtLinkNotShown(w: World, s: SubId)
    requires Inv(w) && At(w, s).AtLink?
    ensures At(w, s).p !in w.shown
  {
    assert PcOk(w, s) && PostOk(w, At(w, s).p);
  }

  lemma AdvanceOut(w: World, t: SubId, newId: PostId, w': World, s: SubId)
    requires Inv(w) && Advance(w, t, newId, w') && OutUnapproved(w', s)
    ensures OutUnapproved(w, s)
  {
    assert PcOk(w, t) && SubOk(w, t);
    if At(w, t).AtLink? { AtLinkNotShown(w, t); }
    if t != s {
      assert SubOk(w, s);
    }
  }

  lemma OutBefore(w: World, w': World, s: SubId)
    requires Inv(w) && Next(w, w') && OutUnapproved(w', s)
    ensures OutUnapproved(w, s) || (At(w, s).AtApprove? && Crash(w, s, w'))
  {
    if t, newId :| Advance(w, t, newId, w') {
      AdvanceOut(w, t, newId, w', s);
    } else if t :| Crash(w, t, w') {
      assert t == s || At(w', s) == At(w, s);
    }
  }

  lemma {:induction false} OutHadCrash(trace: seq<World>, k: nat, s: SubId)
    requires Run(trace) && k < |trace| && OutUnapproved(trace[k], s)
    ensures CrashedAtApprove(trace, k, s)
  {
    hide Inv, Next, OutUnapproved, Crash;
    assert k > 0 by { NothingOutAtFirst(trace, s); }
    RunKeepsInv(trace, k - 1);
    OutBefore(trace[k - 1], trace[k], s);
    if OutUnapproved(trace[k - 1], s) {
      OutHadCrash(trace, k - 1, s);
      var j: nat :| CrashAt(trace, j, s) && j < k - 1;
      assert CrashAt(trace, j, s) && j < k;
    } else {
      assert CrashAt(trace, k - 1, s);
    }
  }

  lemma NothingOutAtFirst(trace: seq<World>, s: SubId)
    requires Run(trace)
    ensures !OutUnapproved(trace[0], s)
  {
  }

  /** Over every run, a rejected submission whose linked post went live has seen an attempt crash between
      publishing and approving, unless the post was published by hand. */
  lemma LiveRejectionHadCrash(trace: seq<World>, k: nat, s: SubId)
    requires Run(trace) && k < |trace| && s in trace[k].db.subs && trace[k].db.subs[s].review == Rejected
    requires trace[k].db.subs[s].link.Some? && WentLive(trace[k], trace[k].db.subs[s].link.value)
    ensures trace[k].db.subs[s].link.value in trace[k].byHand || CrashedAtApprove(trace, k, s)
  {
    RunKeepsInv(trace, k);
    assert PcOk(trace[k], s);
    if trace[k].db.subs[s].link.value in trace[k].shown { OutHadCrash(trace, k, s); }
  }

  /** And every such crash allows it: the next request may be a rejection, and the post stays live. */
  lemma CrashAllowsLiveRejection(w: World, s: SubId, p: PostId) returns (w': World, w'': World)
    requires Inv(w) && At(w, s) == AtApprove(p) && p in w.db.posts && w.db.posts[p].status == Published
    ensures Crash(w, s, w') && Reject(w', s, w'')
    ensures s in w''.db.subs && w''.db.subs[s] == Submission(Rejected, Some(p)) && w''.db.posts[p].status == Published
  {
    assert PcOk(w, s);
    w' := To(w, s, w.db, Idle);
    w'' := w'.(db := Reviewed(w'.db, s, Rejected));
  }

  /** The input, from the empty tables: after a crash between publishing and approving, an admin may
      still reject the submission, and its post stays live. */
  lemma RejectedWhileLive() returns (trace: seq<World>)
    ensures Run(trace) && trace[|trace| - 1].byHand == {}
    ensures var db := trace[|trace| - 1].db;
            0 in db.subs && db.subs[0] == Submission(Rejected, Some(0)) &&
            0 in db.posts && db.posts[0].status == Published
  {
    var w0 := START;
    var w1 := w0.(db := w0.db.(subs := w0.db.subs[0 := Submission(Pending, None)]));
    var w2 := To(w1, 0, Created(w1.db, 0, 0), AtLink(0));
    var w3 := To(w2, 0, Linked(w2.db, 0, 0), AtPublish(0, Draft));
    var w4 := To(w3, 0, Live(w3.db, 0), AtApprove(0)).(shown := {0});
    var w5 := To(w4, 0, w4.db, Idle);
    var w6 := w5.(db := Reviewed(w5.db, 0, Rejected));
    assert w4.shown == w3.shown + {0};
    assert Submit(w0, 0, w1) && Advance(w1, 0, 0, w2) && Advance(w2, 0, 0, w3) && Advance(w3, 0, 0, w4);
    assert Crash(w4, 0, w5) && Reject(w5, 0, w6);
    trace := [w0, w1, w2, w3, w4, w5, w6];
  }

  /** What publishing by hand can do: an orphan published by hand, and the retry's own post, are both live,
      and the orphan is shown to everyone as a campus post. */
  lemma TwoLivePosts() returns (trace: seq<World>)
    ensures Run(trace)
    ensures var db := trace[|trace| - 1].db;
            0 in db.posts && 1 in db.posts && db.posts[0] == Post(0, Campus, false, Published) &&
            db.posts[1] == Post(0, Employer, true, Published)
  {
    var w0 := START;
    var w1 := w0.(db := w0.db.(subs := w0.db.subs[0 := Submission(Pending, None)]));
    var w2 := To(w1, 0, Created(w1.db, 0, 0), AtLink(0));
    var w3 := To(w2, 0, w2.db, Idle);
    var w4 := w3.(db := Live(w3.db, 0), byHand := w3.byHand + {0});
    var w5 := To(w4, 0, Created(w4.db, 0, 1), AtLink(1));
    var w6 := To(w5, 0, Linked(w5.db, 0, 1), AtPublish(1, Draft));
    var w7 := To(w6, 0, Live(w6.db, 1), AtApprove(1)).(shown := w6.shown + {1});
    assert Submit(w0, 0, w1) && Advance(w1, 0, 0, w2) && Crash(w2, 0, w3) && PublishByHand(w3, 0, w4);
    assert Advance(w4, 0, 1, w5) && Advance(w5, 0, 1, w6) && Advance(w6, 0, 1, w7);
    trace := [w0, w1, w2, w3, w4, w5, w6, w7];
  }
}
