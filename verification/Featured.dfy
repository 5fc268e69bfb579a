/**
 The featured activity: `score`, `pick` and the choice between pin and pick of
 backend/app/features/activities/featured.py, and the pin of features/admin/activities_router.py.
 `exp` is a parameter: only its values in (0, 1) for activities still to come are used. Numbers are
 reals; hours and times are reals.
 */
module Featured {
  import opened Prelude

  type Id = nat
  type UserId = nat
  type Time = real

  const W_TIMING := 0.45
  const W_SCARCITY := 0.20
  const W_PARTICIPATION := 0.35
  const JOINED_PENALTY := 0.15
  const FULL_PENALTY := 0.20

  datatype Candidate = Candidate(id: Id, start: Time, cap: Option<int>, count: nat, joined: bool)

  /** `decay(x)` is exp(-x). */
  type Decay = real -> real

  ghost predicate DecayOk(decay: Decay) {
    forall x: real | x > 0.0 :: 0.0 < decay(x) < 1.0
  }

  predicate Capped(c: Candidate) {
    c.cap.Some? && c.cap.value > 0
  }

  function Ratio(n: nat, m: int): real
    requires m > 0
  {
    n as real / m as real
  }

  function Clamp(x: real): real {
    if x < 0.0 then 0.0 else if x > 1.0 then 1.0 else x
  }

  function Scarcity(c: Candidate): real {
    if !Capped(c) then 0.3 else if Ratio(c.count, c.cap.value) >= 1.0 then 0.1 else Clamp(Ratio(c.count, c.cap.value))
  }

  function Participation(c: Candidate, poolMax: nat): real {
    if poolMax == 0 then 0.0 else Ratio(c.count, poolMax)
  }

  function Penalty(c: Candidate): real {
    (if c.joined then JOINED_PENALTY else 0.0) + if Capped(c) && c.count >= c.cap.value then FULL_PENALTY else 0.0
  }

  /** Times are in hours; `now` is before the start of a candidate. */
  function Score(c: Candidate, poolMax: nat, now: Time, decay: Decay): real {
    W_TIMING * decay((c.start - now) / 72.0) + W_SCARCITY * Scarcity(c) +
      W_PARTICIPATION * Participation(c, poolMax) - Penalty(c)
  }

  lemma RatioRange(n: nat, m: int)
    requires m > 0
    ensures 0.0 <= Ratio(n, m) && (Ratio(n, m) >= 1.0 <==> n >= m) && (Ratio(n, m) <= 1.0 <==> n <= m)
  {
    var q, x, y := Ratio(n, m), n as real, m as real;
    assert q * y == x;
    SameOrder(0.0, q, y, 0.0, x);
    SameOrder(1.0, q, y, y, x);
    SameOrder(q, 1.0, y, x, y);
  }

  /** Multiplying by a positive number keeps the order. */
  lemma SameOrder(a: real, b: real, m: real, am: real, bm: real)
    requires m > 0.0 && am == a * m && bm == b * m
    ensures a <= b <==> am <= bm
  {
    assert bm - am == (b - a) * m;
    if a <= b { assert (b - a) * m >= 0.0; } else { assert (a - b) * m > 0.0; }
  }

  /** The score of anything upcoming lies strictly between -0.33 and 1: the full penalty is partly
      made up by the scarcity floor. */
  lemma ScoreRange(c: Candidate, poolMax: nat, now: Time, decay: Decay)
    requires DecayOk(decay) && c.start > now && c.count <= poolMax
    ensures -0.33 < Score(c, poolMax, now, decay) < 1.0
  {
    var t := decay((c.start - now) / 72.0);
    assert (c.start - now) / 72.0 > 0.0;
    assert 0.0 < t < 1.0;
    if Capped(c) { RatioRange(c.count, c.cap.value); }
    if poolMax > 0 { RatioRange(c.count, poolMax); }
  }

  lemma RatioDiff(n: nat, n': nat, m: int)
    requires m > 0 && n <= n'
    ensures Ratio(n', m) - Ratio(n, m) == Ratio(n' - n, m) && (n < n' ==> Ratio(n' - n, m) > 0.0)
  {
    RatioRange(n' - n, m);
    var x := Ratio(n', m) - Ratio(n, m);
    assert x * m as real == (n' - n) as real;
  }

  /** Another participant raises the score, by the share of the pool and, below the limit, by the share of
      the limit. */
  lemma ScoreGain(c: Candidate, d: Candidate, poolMax: nat, now: Time, decay: Decay)
    requires d == c.(count := d.count) && c.count < d.count && poolMax > 0
    requires Capped(c) ==> d.count < c.cap.value || c.cap.value <= c.count
    ensures var gain := Score(d, poolMax, now, decay) - Score(c, poolMax, now, decay);
            var n := (d.count - c.count) as real;
            gain > 0.0 &&
            gain == 0.35 * (n / poolMax as real) +
                    if c.cap.Some? && d.count < c.cap.value then 0.20 * (n / c.cap.value as real) else 0.0
  {
    RatioDiff(c.count, d.count, poolMax);
    if Capped(c) {
      RatioRange(c.count, c.cap.value);
      RatioRange(d.count, c.cap.value);
      RatioDiff(c.count, d.count, c.cap.value);
    }
    hide Ratio;
  }

  /** Whoever takes the last seat lowers the score, except in a pool where nothing has more than one participant. */
  lemma LastSeatLowers(c: Candidate, d: Candidate, poolMax: nat, now: Time, decay: Decay)
    requires d == c.(count := d.count) && Capped(c) && c.count + 1 == d.count == c.cap.value <= poolMax
    ensures Score(d, poolMax, now, decay) < Score(c, poolMax, now, decay) <==> poolMax > 1
  {
    var m := c.cap.value;
    RatioDiff(c.count, d.count, poolMax);
    RatioDiff(c.count, m, m);
    RatioRange(c.count, m);
    RatioRange(m, m);
    assert Ratio(m, m) == 1.0;
    OneOver(m, poolMax);
    hide Ratio;
    assert Score(d, poolMax, now, decay) - Score(c, poolMax, now, decay) ==
           0.35 * Ratio(1, poolMax) + 0.20 * Ratio(1, m) - 0.38;
  }

  lemma OneOver(m: int, n: int)
    requires 0 < m <= n
    ensures Ratio(1, 1) == 1.0 && Ratio(1, m) <= 1.0 && (n > 1 ==> Ratio(1, n) <= 0.5)
    ensures n > 1 ==> 0.35 * Ratio(1, n) + 0.20 * Ratio(1, m) < 0.38
  {
    RatioRange(1, m);
    RatioRange(1, n);
    var x := Ratio(1, n);
    assert x * n as real == 1.0;
    if n > 1 { SameOrder(x, 0.5, n as real, 1.0, 0.5 * n as real); }
  }

  /** An activity without a limit counts as three tenths full. */
  lemma UnlimitedIsThreeTenths(c: Candidate, d: Candidate, poolMax: nat, now: Time, decay: Decay)
    requires d == c.(cap := d.cap) && (c.cap.Some? ==> c.cap.value <= 0) && d.cap.Some? && d.count < d.cap.value
    ensures Score(d, poolMax, now, decay) - Score(c, poolMax, now, decay)
         == 0.20 * (d.count as real / d.cap.value as real - 0.3)
  {
    RatioRange(d.count, d.cap.value);
  }

  // ----- pick -----

  function PoolMax(cs: seq<Candidate>): nat {
    if cs == [] then 0 else var m := PoolMax(cs[1..]); if cs[0].count > m then cs[0].count else m
  }

  /** The key order: higher score first, the smaller id on a tie. */
  predicate Beats(c: Candidate, d: Candidate, poolMax: nat, now: Time, decay: Decay) {
    var s, t := Score(c, poolMax, now, decay), Score(d, poolMax, now, decay);
    s > t || (s == t && c.id < d.id)
  }

  /** `max(candidates, key=...)`: the first one that no later one beats. */
  function Best(cs: seq<Candidate>, poolMax: nat, now: Time, decay: Decay): Candidate
    requires cs != []
  {
    if |cs| == 1 then cs[0]
    else
      var n := |cs| - 1;
      var b := Best(cs[..n], poolMax, now, decay);
      if Beats(cs[n], b, poolMax, now, decay) then cs[n] else b
  }

  function Pick(cs: seq<Candidate>, now: Time, decay: Decay): Option<Candidate> {
    if cs == [] then None else Some(Best(cs, PoolMax(cs), now, decay))
  }

  ghost predicate DistinctIds(cs: seq<Candidate>) {
    forall i, j | 0 <= i < j < |cs| :: cs[i].id != cs[j].id
  }

  lemma {:induction false} PoolMaxIsMax(cs: seq<Candidate>)
    ensures forall c | c in cs :: c.count <= PoolMax(cs)
    ensures cs != [] ==> exists c :: c in cs && c.count == PoolMax(cs)
  {
    if cs != [] {
      PoolMaxIsMax(cs[1..]);
      assert cs == [cs[0]] + cs[1..];
      var c := if cs[0].count >= PoolMax(cs[1..]) then cs[0]
      else (var d :| d in cs[1..] && d.count == PoolMax(cs[1..]); d);
      assert c in cs && c.count == PoolMax(cs);
    }
  }

  lemma {:induction false} BestBeatsAll(cs: seq<Candidate>, poolMax: nat, now: Time, decay: Decay)
    requires cs != [] && DistinctIds(cs)
    ensures var b := Best(cs, poolMax, now, decay);
            b in cs && forall c | c in cs && c != b :: Beats(b, c, poolMax, now, decay)
  {
    if |cs| > 1 {
      hide Score;
      var n := |cs| - 1;
      assert cs == cs[..n] + [cs[n]];
      BestBeatsAll(cs[..n], poolMax, now, decay);
      var b := Best(cs[..n], poolMax, now, decay);
      assert b.id != cs[n].id;
    }
  }

  /** The pick is the one candidate whose key is above every other's; with no candidate there is
      none, and the order of the list never matters. */
  lemma PickIsUniqueMax(cs: seq<Candidate>, now: Time, decay: Decay)
    requires DistinctIds(cs)
    ensures Pick(cs, now, decay) == None <==> cs == []
    ensures forall b :: Pick(cs, now, decay) == Some(b) <==>
              b in cs && forall c | c in cs && c != b :: Beats(b, c, PoolMax(cs), now, decay)
  {
    if cs != [] {
      BestBeatsAll(cs, PoolMax(cs), now, decay);
      hide Score, Best, PoolMax;
    }
  }

  lemma PickIgnoresOrder(cs: seq<Candidate>, ds: seq<Candidate>, now: Time, decay: Decay)
    requires DistinctIds(cs) && DistinctIds(ds) && forall c :: c in cs <==> c in ds
    ensures Pick(cs, now, decay) == Pick(ds, now, decay)
  {
    PoolMaxIsMax(cs);
    PoolMaxIsMax(ds);
    PickIsUniqueMax(cs, now, decay);
    PickIsUniqueMax(ds, now, decay);
    assert cs != [] ==> cs[0] in cs;
    assert ds != [] ==> ds[0] in ds;
    if cs != [] && ds != [] {
      assert PoolMax(cs) == PoolMax(ds);
    }
  }

  /** Of two candidates that differ only in their start, the sooner one is picked over the later. */
  lemma SoonerBeatsLater(c: Candidate, d: Candidate, poolMax: nat, now: Time, decay: Decay)
    requires d == c.(id := d.id, start := d.start) && c.start < d.start
    requires forall x: real, y: real | x < y :: decay(x) > decay(y)
    ensures Beats(c, d, poolMax, now, decay)
    ensures Score(c, poolMax, now, decay) - Score(d, poolMax, now, decay)
         == 0.45 * (decay((c.start - now) / 72.0) - decay((d.start - now) / 72.0))
  {
  }

  // ----- the pick, seen by someone who has joined some of the candidates -----

  /** The same candidates with the viewer's own `joined`; only an activity with participants is joined. */
  ghost predicate IsView(base: seq<Candidate>, view: seq<Candidate>) {
    |view| == |base| &&
    forall k | 0 <= k < |base| ::
      !base[k].joined && view[k].(joined := false) == base[k] && (view[k].joined ==> base[k].count >= 1)
  }

  ghost predicate PicksAt(cs: seq<Candidate>, i: nat, now: Time, decay: Decay) {
    i < |cs| && Pick(cs, now, decay) == Some(cs[i])
  }

  ghost predicate BeatsOthers(cs: seq<Candidate>, i: nat, poolMax: nat, now: Time, decay: Decay)
    requires i < |cs|
  {
    forall j | 0 <= j < |cs| && j != i :: Beats(cs[i], cs[j], poolMax, now, decay)
  }

  /** Having joined costs 0.15. */
  lemma JoinedScore(c: Candidate, poolMax: nat, now: Time, decay: Decay)
    ensures Score(c, poolMax, now, decay) ==
            Score(c.(joined := false), poolMax, now, decay) - if c.joined then 0.15 else 0.0
  {
  }

  lemma {:induction false} ViewPoolMax(base: seq<Candidate>, view: seq<Candidate>)
    requires IsView(base, view)
    ensures PoolMax(view) == PoolMax(base)
  {
    if base != [] {
      assert view[0].(joined := false) == base[0];
      ViewPoolMax(base[1..], view[1..]);
    }
  }

  lemma PicksAtIff(cs: seq<Candidate>, i: nat, now: Time, decay: Decay)
    requires DistinctIds(cs) && i < |cs|
    ensures PicksAt(cs, i, now, decay) <==> BeatsOthers(cs, i, PoolMax(cs), now, decay)
  {
    PickIsUniqueMax(cs, now, decay);
    hide Beats, Pick, PoolMax;
    assert forall j | 0 <= j < |cs| && j != i :: cs[j] in cs && cs[j] != cs[i];
    forall c | c in cs && c != cs[i] ensures exists j :: 0 <= j < |cs| && j != i && cs[j] == c {}
  }

  /** Someone who has not joined the general pick sees it too; someone who has sees it exactly when it
      still leads with the penalty. */
  lemma PickOfView(base: seq<Candidate>, view: seq<Candidate>, i: nat, now: Time, decay: Decay)
    requires IsView(base, view) && DistinctIds(base) && PicksAt(base, i, now, decay)
    ensures DistinctIds(view)
    ensures PicksAt(view, i, now, decay) <==> !view[i].joined || BeatsOthers(view, i, PoolMax(base), now, decay)
  {
    assert forall k | 0 <= k < |base| :: view[k].id == base[k].id by {
      forall k | 0 <= k < |base| ensures view[k].id == base[k].id { assert view[k].(joined := false) == base[k]; }
    }
    ViewPoolMax(base, view);
    PicksAtIff(base, i, now, decay);
    PicksAtIff(view, i, now, decay);
    hide Score, PoolMax, Pick;
    if !view[i].joined {
      forall j | 0 <= j < |view| && j != i ensures Beats(view[i], view[j], PoolMax(base), now, decay) {
        assert Beats(base[i], base[j], PoolMax(base), now, decay);
        JoinedScore(view[i], PoolMax(base), now, decay);
        JoinedScore(view[j], PoolMax(base), now, decay);
      }
    }
  }

  /** Whatever viewers have joined, all of them see the general pick, exactly when nobody can have
      joined it or it leads by more than the penalty. */
  lemma SameForEveryViewIff(base: seq<Candidate>, i: nat, now: Time, decay: Decay)
    requires IsView(base, base) && DistinctIds(base) && PicksAt(base, i, now, decay)
    ensures (forall view: seq<Candidate> | IsView(base, view) :: PicksAt(view, i, now, decay)) <==>
              base[i].count == 0 || BeatsOthers(base[i := base[i].(joined := true)], i, PoolMax(base), now, decay)
  {
    var worst := base[i := base[i].(joined := true)];
    if base[i].count >= 1 {
      assert IsView(base, worst);
      PickOfView(base, worst, i, now, decay);
    }
    forall view: seq<Candidate> |
      IsView(base, view) && (base[i].count == 0 || BeatsOthers(worst, i, PoolMax(base), now, decay))
      ensures PicksAt(view, i, now, decay)
    {
      PickOfView(base, view, i, now, decay);
      hide Score, PoolMax, Pick;
      if view[i].joined {
        forall j | 0 <= j < |view| && j != i ensures Beats(view[i], view[j], PoolMax(base), now, decay) {
          assert Beats(worst[i], worst[j], PoolMax(base), now, decay) && view[i] == worst[i];
          JoinedScore(view[j], PoolMax(base), now, decay);
        }
      }
    }
  }

  // ----- pins -----

  const MAX_PIN := 1440.0  // 60 days

  /** `roster` holds the users with a participant row. */
  datatype Activity = Activity(cancelled: bool, start: Time, end: Option<Time>, cap: Option<int>, roster: set<UserId>,
                               featuredUntil: Option<Time>, featuredBy: Option<int>)

  type Table = map<Id, Activity>

  predicate Pinned(t: Table, a: Id, now: Time) {
    a in t && t[a].featuredUntil.Some? && t[a].featuredUntil.value > now
  }

  ghost predicate OnePin(t: Table, now: Time) {
    forall a, b | Pinned(t, a, now) && Pinned(t, b, now) :: a == b
  }

  datatype Status = NoContent | Unprocessable | NotFound

  predicate PinAllowed(t: Table, a: Id, until: Time, now: Time) {
    now < until <= now + MAX_PIN && a in t && !t[a].cancelled
  }

  function Unpin(x: Activity): Activity {
    x.(featuredUntil := None, featuredBy := None)
  }

  function Repinned(t: Table, a: Id, until: Time, now: Time, actor: int): Table {
    map b | b in t ::
      if b == a then t[b].(featuredUntil := Some(until), featuredBy := Some(actor))
      else if Pinned(t, b, now) then Unpin(t[b]) else t[b]
  }

  class Board {
    var activities: Table

    method FeatureActivity(a: Id, until: Time, now: Time, actor: int) returns (s: Status)
      modifies this
      ensures s == if !(now < until <= now + 60.0 * 24.0) then Unprocessable
                   else if a in old(activities) && !old(activities)[a].cancelled then NoContent else NotFound
      ensures activities == if s == NoContent then Repinned(old(activities), a, until, now, actor) else old(activities)
    {
      if !(now < until <= now + MAX_PIN) {
        return Unprocessable;
      }
      if a !in activities || activities[a].cancelled {
        return NotFound;
      }
      activities := map b | b in activities ::
        if b != a && Pinned(activities, b, now) then Unpin(activities[b]) else activities[b];
      activities := activities[a := activities[a].(featuredUntil := Some(until), featuredBy := Some(actor))];
      assert activities == Repinned(old(activities), a, until, now, actor);
      return NoContent;
    }

    method UnfeatureActivity(a: Id) returns (s: Status)
      modifies this
      ensures s == if a in old(activities) then NoContent else NotFound
      ensures activities == if a in old(activities) then old(activities)[a := Unpin(old(activities)[a])]
                            else old(activities)
    {
      if a !in activities {
        return NotFound;
      }
      activities := activities[a := Unpin(activities[a])];
      return NoContent;
    }
  }

  /** A request, with the clock it read; other edits touch no pin. */
  datatype Event = Feature(a: Id, until: Time, actor: int) | Unfeature(a: Id) | Save(a: Id, x: Activity)

  function After(t: Table, e: Event, now: Time): Table {
    match e
    case Feature(a, until, actor) => if PinAllowed(t, a, until, now) then Repinned(t, a, until, now, actor) else t
    case Unfeature(a) => if a in t then t[a := Unpin(t[a])] else t
    case Save(a, x) =>
      t[a := x.(featuredUntil := if a in t then t[a].featuredUntil else None,
                featuredBy := if a in t then t[a].featuredBy else None)]
  }

  function Run(t: Table, events: seq<(Time, Event)>): Table {
    if events == [] then t else var n := |events| - 1; After(Run(t, events[..n]), events[n].1, events[n].0)
  }

  predicate Clock(events: seq<(Time, Event)>) {
    forall i, j | 0 <= i < j < |events| :: events[i].0 <= events[j].0
  }

  lemma AfterKeepsOnePin(t: Table, e: Event, now: Time)
    requires OnePin(t, now)
    ensures OnePin(After(t, e, now), now)
  {
    forall a, b | Pinned(After(t, e, now), a, now) && Pinned(After(t, e, now), b, now) ensures a == b {
      assert e.Feature? || (Pinned(t, a, now) && Pinned(t, b, now));
    }
  }

  /** Over every run of requests with a clock that does not go back, from a table with at most one
      pin, at most one activity is pinned from the last request on. */
  lemma {:induction false} AtMostOnePinned(t: Table, events: seq<(Time, Event)>, start: Time, now: Time)
    requires OnePin(t, start) && Clock(events) && (forall i | 0 <= i < |events| :: start <= events[i].0 <= now) &&
        start <= now
    ensures OnePin(Run(t, events), now)
  {
    if events == [] {
      forall a, b | Pinned(t, a, now) && Pinned(t, b, now) ensures a == b {
        assert Pinned(t, a, start) && Pinned(t, b, start);
      }
    } else {
      var n := |events| - 1;
      var last := events[n].0;
      AtMostOnePinned(t, events[..n], start, last);
      AfterKeepsOnePin(Run(t, events[..n]), events[n].1, last);
      var u := Run(t, events);
      forall a, b | Pinned(u, a, now) && Pinned(u, b, now) ensures a == b {
        assert Pinned(u, a, last) && Pinned(u, b, last);
      }
    }
  }

  /** A pin that was accepted is the one pin, until it ends or another request changes it. */
  lemma FeatureWins(t: Table, a: Id, until: Time, actor: int, now: Time, later: Time)
    requires OnePin(t, now) && PinAllowed(t, a, until, now) && now <= later
    ensures var u := After(t, Feature(a, until, actor), now);
            (forall b :: Pinned(u, b, later) <==> b == a && later < until) &&
            u.Keys == t.Keys && u[a] == t[a].(featuredUntil := Some(until), featuredBy := Some(actor)) &&
            forall b | b in t && b != a ::
              u[b] == if t[b].featuredUntil.Some? && t[b].featuredUntil.value > now
                      then t[b].(featuredUntil := None, featuredBy := None) else t[b]
  {
  }

  // ----- what a viewer is shown -----

  const DEFAULT_DURATION := 2.0

  predicate StillOn(x: Activity, now: Time) {
    (match x.end case Some(e) => e case None => x.start + DEFAULT_DURATION) > now
  }

  predicate ShowsAsPin(t: Table, a: Id, now: Time) {
    Pinned(t, a, now) && !t[a].cancelled && StillOn(t[a], now)
  }

  const CANDIDATES := 60

  /** A result of the candidate query: the soonest open upcoming activities, equal starts in any order. */
  ghost predicate IsListing(t: Table, ids: seq<Id>, now: Time) {
    |ids| <= CANDIDATES &&
    (forall k | 0 <= k < |ids| :: ids[k] in t && Upcoming(t[ids[k]], now)) &&
    (forall j, k | 0 <= j < k < |ids| :: ids[j] != ids[k] && t[ids[j]].start <= t[ids[k]].start) &&
    forall a | a in t && Upcoming(t[a], now) && a !in ids ::
      |ids| == CANDIDATES && forall k | 0 <= k < |ids| :: t[ids[k]].start <= t[a].start
  }

  predicate Upcoming(x: Activity, now: Time) {
    !x.cancelled && x.start > now
  }

  function CandidateOf(t: Table, a: Id, joined: bool): Candidate
    requires a in t
  {
    Candidate(a, t[a].start, t[a].cap, |t[a].roster|, joined)
  }

  function SeenBy(t: Table, ids: seq<Id>, viewer: UserId): seq<Candidate>
    requires forall k | 0 <= k < |ids| :: ids[k] in t
  {
    seq(|ids|, k requires 0 <= k < |ids| => CandidateOf(t, ids[k], viewer in t[ids[k]].roster))
  }

  /** As someone sees them who has joined none. */
  function SeenPlain(t: Table, ids: seq<Id>): seq<Candidate>
    requires forall k | 0 <= k < |ids| :: ids[k] in t
  {
    seq(|ids|, k requires 0 <= k < |ids| => CandidateOf(t, ids[k], false))
  }

  /** `featured_activity`: the pin, else the pick among the listed rows with the viewer's own `joined`. */
  function Shown(t: Table, ids: seq<Id>, viewer: UserId, now: Time, decay: Decay): Option<Id>
    requires OnePin(t, now) && forall k | 0 <= k < |ids| :: ids[k] in t
  {
    if exists a :: a in t && ShowsAsPin(t, a, now) then Some(var a :| a in t && ShowsAsPin(t, a, now); a)
    else match Pick(SeenBy(t, ids, viewer), now, decay) case Some(c) => Some(c.id) case None => None
  }

  /** A pin that is still on is shown to everyone, whatever they joined. */
  lemma PinIsForEveryone(t: Table, a: Id, ids: seq<Id>, viewer: UserId, now: Time, decay: Decay)
    requires OnePin(t, now) && ShowsAsPin(t, a, now) && forall k | 0 <= k < |ids| :: ids[k] in t
    ensures Shown(t, ids, viewer, now, decay) == Some(a)
  {
  }

  /** An activity is shown because its pin has not run out, it is not cancelled and it is not over (without an end,
      two hours after its start), or, when that is so of none, because it is the pick. */
  lemma ShownIs(t: Table, a: Id, ids: seq<Id>, viewer: UserId, now: Time, decay: Decay)
    requires OnePin(t, now) && forall k | 0 <= k < |ids| :: ids[k] in t
    ensures var pinned := (x: Activity) =>
              !x.cancelled && x.featuredUntil.Some? && now < x.featuredUntil.value &&
              now < if x.end.Some? then x.end.value else x.start + 2.0;
            Shown(t, ids, viewer, now, decay) == Some(a) <==>
              (a in t && pinned(t[a])) ||
              ((forall b | b in t :: !pinned(t[b])) &&
               exists c :: Pick(SeenBy(t, ids, viewer), now, decay) == Some(c) && c.id == a)
  {
    hide Pick, SeenBy;
    var pinned := (x: Activity) =>
      !x.cancelled && x.featuredUntil.Some? && now < x.featuredUntil.value &&
      now < if x.end.Some? then x.end.value else x.start + 2.0;
    assert forall b | b in t :: ShowsAsPin(t, b, now) <==> pinned(t[b]);
    if b :| b in t && ShowsAsPin(t, b, now) {
      PinIsForEveryone(t, b, ids, viewer, now, decay);
      assert pinned(t[b]);
      assert a in t && pinned(t[a]) ==> Pinned(t, a, now) && Pinned(t, b, now);
    }
  }

  lemma SeenIsView(t: Table, ids: seq<Id>, viewer: UserId, now: Time)
    requires IsListing(t, ids, now)
    ensures IsView(SeenPlain(t, ids), SeenBy(t, ids, viewer)) && DistinctIds(SeenPlain(t, ids))
  {
    var base, view := SeenPlain(t, ids), SeenBy(t, ids, viewer);
    forall k | 0 <= k < |base| && view[k].joined ensures base[k].count >= 1 {
      assert viewer in t[ids[k]].roster;
    }
  }

  function Everyone(t: Table, ids: seq<Id>): set<UserId>
    requires forall k | 0 <= k < |ids| :: ids[k] in t
  {
    if ids == [] then {} else t[ids[0]].roster + Everyone(t, ids[1..])
  }

  lemma {:induction false} RosterInEveryone(t: Table, ids: seq<Id>, k: nat)
    requires (forall j | 0 <= j < |ids| :: ids[j] in t) && k < |ids|
    ensures t[ids[k]].roster <= Everyone(t, ids)
  {
    if k > 0 { RosterInEveryone(t, ids[1..], k - 1); }
  }

  lemma Outsider(t: Table, ids: seq<Id>) returns (w: UserId)
    requires forall k | 0 <= k < |ids| :: ids[k] in t
    ensures SeenBy(t, ids, w) == SeenPlain(t, ids)
  {
    w := FreshNat(Everyone(t, ids));
    forall k | 0 <= k < |ids| ensures w !in t[ids[k]].roster { RosterInEveryone(t, ids, k); }
  }

  /** Without a pin, everyone is shown the same activity exactly when the pick `i` of someone who has
      joined nothing still leads, for each of its own participants, with the penalties of that participant. */
  lemma SameForEveryoneIff(t: Table, ids: seq<Id>, i: nat, now: Time, decay: Decay)
    requires OnePin(t, now) && IsListing(t, ids, now) && (forall a | a in t :: !ShowsAsPin(t, a, now))
    requires PicksAt(SeenPlain(t, ids), i, now, decay)
    ensures (forall u, v :: Shown(t, ids, u, now, decay) == Shown(t, ids, v, now, decay)) <==>
              forall u | u in t[ids[i]].roster ::
                BeatsOthers(SeenBy(t, ids, u), i, PoolMax(SeenPlain(t, ids)), now, decay)
  {
    var base := SeenPlain(t, ids);
    var w := Outsider(t, ids);
    forall v ensures Shown(t, ids, v, now, decay) == Some(ids[i]) <==>
              v !in t[ids[i]].roster || BeatsOthers(SeenBy(t, ids, v), i, PoolMax(base), now, decay)
    {
      ShownTo(t, ids, i, v, now, decay);
    }
    hide Shown, BeatsOthers, PicksAt, SeenPlain;
    assert Shown(t, ids, w, now, decay) == Some(ids[i]) by { OutsiderShown(t, ids, i, w, now, decay); }
  }

  lemma OutsiderShown(t: Table, ids: seq<Id>, i: nat, w: UserId, now: Time, decay: Decay)
    requires OnePin(t, now) && IsListing(t, ids, now) && (forall a | a in t :: !ShowsAsPin(t, a, now))
    requires PicksAt(SeenPlain(t, ids), i, now, decay) && SeenBy(t, ids, w) == SeenPlain(t, ids)
    ensures Shown(t, ids, w, now, decay) == Some(ids[i])
  {
    hide Pick;
  }

  lemma ShownTo(t: Table, ids: seq<Id>, i: nat, v: UserId, now: Time, decay: Decay)
    requires OnePin(t, now) && IsListing(t, ids, now) && (forall a | a in t :: !ShowsAsPin(t, a, now))
    requires PicksAt(SeenPlain(t, ids), i, now, decay)
    ensures Shown(t, ids, v, now, decay) == Some(ids[i]) <==>
              v !in t[ids[i]].roster || BeatsOthers(SeenBy(t, ids, v), i, PoolMax(SeenPlain(t, ids)), now, decay)
  {
    var view := SeenBy(t, ids, v);
    SeenIsView(t, ids, v, now);
    PickOfView(SeenPlain(t, ids), view, i, now, decay);
    PickIsUniqueMax(view, now, decay);
    hide Pick, PoolMax, BeatsOthers, Beats, IsView;
    assert view[i].joined <==> v in t[ids[i]].roster;
    var b := Pick(view, now, decay).value;
    var k :| 0 <= k < |view| && view[k] == b;
    assert b.id == ids[k];
  }

  /** No activity left out of the listing starts with the last one listed. */
  ghost predicate NoTieAtEnd(t: Table, ids: seq<Id>, now: Time)
    requires IsListing(t, ids, now)
  {
    ids != [] ==>
      forall a | a in t && Upcoming(t[a], now) && a !in ids :: t[ids[|ids| - 1]].start < t[a].start
  }

  lemma Displaced(ids: seq<Id>, other: seq<Id>, a: Id) returns (b: Id)
    requires forall j, k | 0 <= j < k < |ids| :: ids[j] != ids[k]
    requires forall j, k | 0 <= j < k < |other| :: other[j] != other[k]
    requires |other| <= |ids| && a in other && a !in ids
    ensures b in ids && b !in other
  {
    DistinctSize(ids);
    DistinctSize(other);
    var mine, theirs := set x | x in ids, set x | x in other;
    var rest := theirs - {a};
    SubsetSize(mine * theirs, rest);
    assert |rest| == |theirs| - 1;
    assert mine == (mine - theirs) + (mine * theirs);
    assert |mine - theirs| > 0;
    b :| b in mine - theirs;
  }

  /** What only one of two listings has is tied with the end of the other. */
  lemma TiedAtEnd(t: Table, ids: seq<Id>, other: seq<Id>, now: Time)
    requires IsListing(t, ids, now) && IsListing(t, other, now)
    ensures forall a | a in other && a !in ids ::
              ids != [] && a in t && Upcoming(t[a], now) && t[a].start <= t[ids[|ids| - 1]].start
  {
    forall a | a in other && a !in ids
      ensures ids != [] && a in t && Upcoming(t[a], now) && t[a].start <= t[ids[|ids| - 1]].start
    {
      var b := Displaced(ids, other, a);
      var k :| 0 <= k < |ids| && ids[k] == b;
      assert t[a].start <= t[b].start;
    }
  }

  lemma SubsetSize(a: set<Id>, b: set<Id>)
    requires a <= b
    ensures |a| <= |b| && (|a| == |b| ==> a == b)
  {
    assert b == a + (b - a);
  }

  /** The query leaves the order of equal starts open, so two viewers may be given different listings;
      without a tie at the end these have the same activities, and both viewers are shown as if they had one. */
  lemma ListingDoesNotMatter(t: Table, ids: seq<Id>, other: seq<Id>, viewer: UserId, now: Time, decay: Decay)
    requires OnePin(t, now) && IsListing(t, ids, now) && IsListing(t, other, now) && NoTieAtEnd(t, ids, now)
    ensures forall a :: a in ids <==> a in other
    ensures Shown(t, ids, viewer, now, decay) == Shown(t, other, viewer, now, decay)
  {
    TiedAtEnd(t, ids, other, now);
    assert forall a | a in other :: a in ids;
    DistinctSize(ids);
    DistinctSize(other);
    var mine, theirs := set b | b in ids, set b | b in other;
    SubsetSize(theirs, mine);
    forall a | a in ids ensures a in other {
      assert a in mine && (|other| == CANDIDATES ==> theirs == mine);
    }
    SameSeen(t, ids, other, viewer, now);
    PickIgnoresOrder(SeenBy(t, ids, viewer), SeenBy(t, other, viewer), now, decay);
  }

  lemma SameSeen(t: Table, ids: seq<Id>, other: seq<Id>, viewer: UserId, now: Time)
    requires IsListing(t, ids, now) && IsListing(t, other, now) && forall a :: a in ids <==> a in other
    ensures var cs, ds := SeenBy(t, ids, viewer), SeenBy(t, other, viewer);
            DistinctIds(cs) && DistinctIds(ds) && forall c :: c in cs <==> c in ds
  {
    var cs, ds := SeenBy(t, ids, viewer), SeenBy(t, other, viewer);
    forall c | c in cs ensures c in ds {
      var k :| 0 <= k < |cs| && cs[k] == c;
      assert ids[k] in other;
      var j :| 0 <= j < |other| && other[j] == ids[k];
      assert ds[j] == c;
    }
    forall c | c in ds ensures c in cs {
      var k :| 0 <= k < |ds| && ds[k] == c;
      assert other[k] in ids;
      var j :| 0 <= j < |ids| && ids[j] == other[k];
      assert cs[j] == c;
    }
  }

  /** Without a pin, two people may be shown different activities: the penalty is the viewer's own. */
  lemma ViewersMayDiffer(now: Time, decay: Decay) returns (t: Table, ids: seq<Id>, one: UserId, other: UserId)
    ensures OnePin(t, now) && IsListing(t, ids, now)
    ensures Shown(t, ids, one, now, decay) != Shown(t, ids, other, now, decay)
  {
    t := map[1 := Activity(false, now + 1.0, None, None, {7}, None, None),
             2 := Activity(false, now + 1.0, None, None, {8}, None, None)];
    ids, one, other := [1, 2], 7, 9;
    var base := SeenPlain(t, ids);
    assert base == [Candidate(1, now + 1.0, None, 1, false), Candidate(2, now + 1.0, None, 1, false)];
    PicksAtIff(base, 0, now, decay);
    SameForEveryoneIff(t, ids, 0, now, decay);
    var view := SeenBy(t, ids, 7);
    assert view[0] == base[0].(joined := true) && view[1] == base[1];
    JoinedScore(view[0], PoolMax(base), now, decay);
    assert !Beats(view[0], view[1], PoolMax(base), now, decay);
    OutsiderShown(t, ids, 0, 9, now, decay);
    ShownTo(t, ids, 0, 7, now, decay);
  }
}
