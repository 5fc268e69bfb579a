/**
 Token-bucket limiter: backend/app/shared/rate_limit.py. Times and tokens are reals.

 The bucket arithmetic is compared with a declarative rule that mentions no bucket at all
 (`Admissible`), and pruning, denied calls and the Redis key expiry are shown to be invisible.
 */
module RateLimit {
  import opened Prelude

  type Key = string

  datatype Bucket = Bucket(tokens: real, last: real)

  type Buckets = map<Key, Bucket>

  datatype Rate = Rate(capacity: real, refill: real) {
    predicate Positive() {
      capacity > 0.0 && refill > 0.0
    }
  }

  /** Tokens refilled between two times. */
  function Gain(r: Rate, from: real, to: real): real {
    (to - from) * r.refill
  }

  lemma GainAdds(r: Rate, a: real, b: real, c: real)
    ensures Gain(r, a, c) == Gain(r, a, b) + Gain(r, b, c)
  {
  }

  lemma GainGrows(r: Rate, a: real, b: real)
    requires r.Positive() && a <= b
    ensures Gain(r, a, b) >= 0.0
  {
  }

  function Min(a: real, b: real): real {
    if a <= b then a else b
  }

  function Get(m: Buckets, k: Key): Option<Bucket> {
    if k in m then Some(m[k]) else None
  }

  /** Tokens available at `now`; a missing bucket is a full one. */
  function Level(r: Rate, b: Option<Bucket>, now: real): real {
    match b
    case None => r.capacity
    case Some(Bucket(tokens, last)) => Min(r.capacity, tokens + Gain(r, last, now))
  }

  function Granted(r: Rate, b: Option<Bucket>, cost: real, now: real): bool {
    Level(r, b, now) >= cost
  }

  function Spend(r: Rate, b: Option<Bucket>, cost: real, now: real): Bucket {
    var tokens := Level(r, b, now);
    Bucket(if tokens >= cost then tokens - cost else tokens, now)
  }

  function Pruned(m: Buckets, cutoff: real): Buckets {
    map k | k in m && m[k].last >= cutoff :: m[k]
  }

  lemma MoveOne(gone: set<Key>, todo: set<Key>, key: Key)
    requires key in todo
    ensures (gone + {key}) + (todo - {key}) == gone + todo
  {
  }

  lemma RemoveOne(m: Buckets, gone: set<Key>, k: Key)
    ensures m - gone - {k} == m - (gone + {k})
  {
  }

  lemma RemovalPrunes(m: Buckets, cutoff: real, stale: set<Key>)
    requires stale == set k | k in m && m[k].last < cutoff
    ensures m - stale == Pruned(m, cutoff) && |m - stale| == |m| - |stale|
  {
  }

  // ----- the limiter object -----

  class RateLimiter {
    const rate: Rate
    var buckets: Buckets

    constructor (capacity: real, perSeconds: real)
      requires capacity > 0.0 && perSeconds > 0.0
      ensures rate.Positive() && rate.capacity == capacity && rate.refill * perSeconds == capacity
      ensures buckets == map[]
    {
      rate := Rate(capacity, capacity / perSeconds);
      buckets := map[];
    }

    /** The validation at the top of `__init__`. */
    static method Make(capacity: int, perSeconds: real) returns (r: Result<RateLimiter, string>)
      ensures r.Ok? <==> capacity > 0 && perSeconds > 0.0
      ensures r.Ok? ==> fresh(r.value) && r.value.rate.Positive() && r.value.buckets == map[] &&
                        r.value.rate.refill * perSeconds == r.value.rate.capacity == capacity as real
    {
      if capacity <= 0 || perSeconds <= 0.0 {
        return Err("capacity and per_seconds must be positive");
      }
      var limiter := new RateLimiter(capacity as real, perSeconds);
      r := Ok(limiter);
    }

    method Allow(key: Key, cost: real, now: real) returns (ok: bool)
      modifies this
      ensures ok == Granted(rate, Get(old(buckets), key), cost, now)
      ensures buckets == old(buckets)[key := Spend(rate, Get(old(buckets), key), cost, now)]
    {
      var tokens := rate.capacity;
      if key in buckets {
        var bucket := buckets[key];
        tokens := Min(rate.capacity, bucket.tokens + Gain(rate, bucket.last, now));
      }
      if tokens >= cost {
        buckets := buckets[key := Bucket(tokens - cost, now)];
        return true;
      }
      buckets := buckets[key := Bucket(tokens, now)];
      return false;
    }

    method Discard(key: Key)
      modifies this
      ensures buckets == old(buckets) - {key}
    {
      buckets := buckets - {key};
    }

    method Prune(idleSeconds: real, now: real) returns (removed: nat)
      modifies this
      ensures buckets == Pruned(old(buckets), now - idleSeconds)
      ensures removed == |old(buckets)| - |buckets|
    {
      hide Pruned;
      var cutoff := now - idleSeconds;
      var stale := set k | k in buckets && buckets[k].last < cutoff;
      var todo := stale;
      ghost var gone: set<Key> := {};
      assert buckets == buckets - gone;
      while todo != {}
        invariant gone + todo == stale && buckets == old(buckets) - gone
      {
        var key :| key in todo;
        RemoveOne(old(buckets), gone, key);
        MoveOne(gone, todo, key);
        buckets := buckets - {key};
        todo, gone := todo - {key}, gone + {key};
      }
      assert gone == stale;
      removed := |stale|;
      RemovalPrunes(old(buckets), cutoff, stale);
    }
  }

  // ----- one key: granted exactly when the window rule allows it -----

  datatype Call = Call(cost: real, at: real)

  ghost predicate Sorted(calls: seq<Call>) {
    forall i, j | 0 <= i < j < |calls| :: calls[i].at <= calls[j].at
  }

  ghost predicate NotBefore(calls: seq<Call>, now: real) {
    forall i | 0 <= i < |calls| :: calls[i].at <= now
  }

  function After(r: Rate, calls: seq<Call>): Option<Bucket> {
    if calls == [] then None
    else var c := calls[|calls| - 1]; Some(Spend(r, After(r, calls[..|calls| - 1]), c.cost, c.at))
  }

  /** The calls that were granted, oldest first. */
  function Grants(r: Rate, calls: seq<Call>): seq<Call> {
    if calls == [] then []
    else
      var n := |calls| - 1;
      Grants(r, calls[..n]) +
      if Granted(r, After(r, calls[..n]), calls[n].cost, calls[n].at) then [calls[n]] else []
  }

  function Total(calls: seq<Call>): real {
    if calls == [] then 0.0 else Total(calls[..|calls| - 1]) + calls[|calls| - 1].cost
  }

  /** `x` more tokens keep every window that ends now within capacity plus refill. */
  ghost predicate Room(r: Rate, granted: seq<Call>, x: real, now: real) {
    x <= r.capacity &&
    forall j | 0 <= j < |granted| :: Total(granted[j..]) + x <= r.capacity + Gain(r, granted[j].at, now)
  }

  ghost predicate Admissible(r: Rate, granted: seq<Call>, c: Call) {
    Room(r, granted, c.cost, c.at)
  }

  lemma TotalSnoc(g: seq<Call>, c: Call, j: nat)
    requires j <= |g|
    ensures Total((g + [c])[j..]) == Total(g[j..]) + c.cost
  {
    assert (g + [c])[j..] == g[j..] + [c];
    assert (g[j..] + [c])[..|g[j..]|] == g[j..];
  }

  lemma RoomAfterGrant(r: Rate, g: seq<Call>, c: Call, x: real, now: real)
    ensures Room(r, g + [c], x, now) <==> x <= r.capacity && Room(r, g, x + c.cost - Gain(r, c.at, now), c.at)
  {
    hide Gain;
    var g', y := g + [c], x + c.cost - Gain(r, c.at, now);
    forall j | 0 <= j < |g'|
      ensures Total(g'[j..]) + x <= r.capacity + Gain(r, g'[j].at, now) <==>
              if j == |g| then y <= r.capacity else Total(g[j..]) + y <= r.capacity + Gain(r, g[j].at, c.at)
    {
      TotalSnoc(g, c, j);
      GainAdds(r, g'[j].at, c.at, now);
      if j == |g| { assert g[j..] == []; GainAdds(r, c.at, c.at, c.at); }
    }
    assert Room(r, g', x, now) ==> Total(g'[|g|..]) + x <= r.capacity + Gain(r, g'[|g|].at, now);
    assert Room(r, g', x, now) ==>
        forall j | 0 <= j < |g| :: Total(g'[j..]) + x <= r.capacity + Gain(r, g'[j].at, now);
  }

  lemma RoomLater(r: Rate, g: seq<Call>, x: real, from: real, now: real)
    requires r.Positive() && from <= now
    ensures Room(r, g, x, now) <==> x <= r.capacity && Room(r, g, x - Gain(r, from, now), from)
  {
    hide Gain;
    GainGrows(r, from, now);
    forall j | 0 <= j < |g| ensures Gain(r, g[j].at, now) == Gain(r, g[j].at, from) + Gain(r, from, now) {
      GainAdds(r, g[j].at, from, now);
    }
  }

  /** The level is the largest amount the window rule still has room for. */
  lemma {:induction false} LevelIsRoom(r: Rate, calls: seq<Call>, x: real, now: real)
    requires r.Positive() && Sorted(calls) && NotBefore(calls, now)
    ensures x <= Level(r, After(r, calls), now) <==> Room(r, Grants(r, calls), x, now)
    decreases |calls|
  {
    hide Gain;
    if calls != [] {
      var n := |calls| - 1;
      var before, c := calls[..n], calls[n];
      var gain := Gain(r, c.at, now);
      if Granted(r, After(r, before), c.cost, c.at) {
        LevelIsRoom(r, before, x + c.cost - gain, c.at);
        RoomAfterGrant(r, Grants(r, before), c, x, now);
      } else {
        assert Grants(r, calls) == Grants(r, before);
        LevelIsRoom(r, before, x - gain, c.at);
        RoomLater(r, Grants(r, before), x, c.at, now);
      }
    }
  }

  /** The limiter's answer after any sequence of calls, with no reference to its bucket. */
  lemma GrantedIffAdmissible(r: Rate, calls: seq<Call>, c: Call)
    requires r.Positive() && Sorted(calls) && NotBefore(calls, c.at)
    ensures Granted(r, After(r, calls), c.cost, c.at) <==> Admissible(r, Grants(r, calls), c)
  {
    LevelIsRoom(r, calls, c.cost, c.at);
  }

  function TotalBetween(calls: seq<Call>, s: real, t: real): real {
    if calls == [] then 0.0
    else
      var c := calls[|calls| - 1];
      TotalBetween(calls[..|calls| - 1], s, t) + if s <= c.at <= t then c.cost else 0.0
  }

  ghost predicate Kept(calls: seq<Call>, kept: seq<Call>) {
    forall i | 0 <= i < |kept| :: kept[i] in calls
  }

  lemma {:induction false} GrantsAreCalls(r: Rate, calls: seq<Call>)
    requires Sorted(calls)
    ensures Kept(calls, Grants(r, calls)) && Sorted(Grants(r, calls))
  {
    if calls != [] {
      GrantsAreCalls(r, calls[..|calls| - 1]);
    }
  }

  lemma LastIsLatest(g: seq<Call>, t: real)
    requires Sorted(g) && NotBefore(g, t) && g != []
    ensures var n := |g| - 1;
            Sorted(g[..n]) && NotBefore(g[..n], t) && g[n].at <= t && forall i | 0 <= i < n :: g[i].at <= g[n].at
  {
  }

  /** A window's total is a suffix total of the grants up to its end. */
  lemma {:induction false} WindowIsSuffix(g: seq<Call>, s: real, t: real) returns (j: nat)
    requires Sorted(g) && NotBefore(g, t)
    ensures j <= |g| && TotalBetween(g, s, t) == Total(g[j..])
    ensures forall i | 0 <= i < |g| :: g[i].at >= s <==> i >= j
  {
    if g == [] {
      j := 0;
    } else {
      var n := |g| - 1;
      LastIsLatest(g, t);
      hide Sorted, NotBefore;
      j := WindowIsSuffix(g[..n], s, t);
      if g[n].at < s {
        j := |g|;
        OldWindowIsEmpty(g, s, t);
        assert g[j..] == [];
      } else {
        assert g[..n] + [g[n]] == g;
        TotalSnoc(g[..n], g[n], j);
        hide Total;
      }
    }
  }

  lemma {:induction false} OldWindowIsEmpty(g: seq<Call>, s: real, t: real)
    requires forall i | 0 <= i < |g| :: g[i].at < s
    ensures TotalBetween(g, s, t) == 0.0
  {
    if g != [] { OldWindowIsEmpty(g[..|g| - 1], s, t); }
  }

  /** No window of a run grants more than one full bucket plus what is refilled meanwhile. */
  lemma {:induction false} WindowBound(r: Rate, calls: seq<Call>, s: real, t: real)
    requires r.Positive() && Sorted(calls) && s <= t
    ensures TotalBetween(Grants(r, calls), s, t) <= r.capacity + r.refill * (t - s)
  {
    WindowBoundGain(r, calls, s, t);
    assert Gain(r, s, t) == r.refill * (t - s);
  }

  lemma {:induction false} WindowBoundGain(r: Rate, calls: seq<Call>, s: real, t: real)
    requires r.Positive() && Sorted(calls) && s <= t
    ensures TotalBetween(Grants(r, calls), s, t) <= r.capacity + Gain(r, s, t)
  {
    hide Gain;
    GainGrows(r, s, t);
    if calls != [] {
      var n := |calls| - 1;
      var before, c := calls[..n], calls[n];
      var g := Grants(r, before);
      WindowBoundGain(r, before, s, t);
      if Granted(r, After(r, before), c.cost, c.at) {
        assert Grants(r, calls) == g + [c] && (g + [c])[..|g|] == g;
        if s <= c.at <= t {
          GrantFitsWindow(r, before, c, s);
          GainAdds(r, s, c.at, t);
          GainGrows(r, c.at, t);
          WindowEnd(g, s, c.at, t);
        }
      } else {
        assert Grants(r, calls) == g;
      }
    }
  }

  lemma {:induction false} WindowEnd(g: seq<Call>, s: real, e: real, t: real)
    requires NotBefore(g, e) && e <= t
    ensures TotalBetween(g, s, t) == TotalBetween(g, s, e)
  {
    if g != [] { WindowEnd(g[..|g| - 1], s, e, t); }
  }

  lemma GrantFitsWindow(r: Rate, before: seq<Call>, c: Call, s: real)
    requires r.Positive() && Sorted(before) && NotBefore(before, c.at) && s <= c.at
    requires Granted(r, After(r, before), c.cost, c.at)
    ensures TotalBetween(Grants(r, before), s, c.at) + c.cost <= r.capacity + Gain(r, s, c.at)
    ensures NotBefore(Grants(r, before), c.at)
  {
    hide Gain;
    var g := Grants(r, before);
    GrantsAreCalls(r, before);
    GrantedIffAdmissible(r, before, c);
    var j := WindowIsSuffix(g, s, c.at);
    GainGrows(r, s, c.at);
    if j < |g| {
      GainAdds(r, s, g[j].at, c.at);
      GainGrows(r, s, g[j].at);
    } else {
      assert g[j..] == [];
    }
  }

  lemma {:induction false} TokensNonNegative(r: Rate, calls: seq<Call>)
    requires r.Positive() && Sorted(calls)
    ensures calls != [] ==> After(r, calls).value.tokens >= 0.0 && After(r, calls).value.last == calls[|calls| - 1].at
  {
    hide Gain;
    if calls != [] {
      var n := |calls| - 1;
      TokensNonNegative(r, calls[..n]);
      if n > 0 { GainGrows(r, calls[n - 1].at, calls[n].at); }
    }
  }

  /** A call within capacity is granted once its own cost has been refilled in silence. */
  lemma SilenceRefills(r: Rate, calls: seq<Call>, c: Call)
    requires r.Positive() && Sorted(calls) && c.cost <= r.capacity
    requires calls != [] ==> c.at - calls[|calls| - 1].at >= c.cost / r.refill
    ensures Granted(r, After(r, calls), c.cost, c.at)
  {
    TokensNonNegative(r, calls);
    if calls != [] {
      GainCovers(r, calls[|calls| - 1].at, c.at, c.cost);
      hide Gain;
    }
  }

  lemma GainCovers(r: Rate, from: real, to: real, amount: real)
    requires r.Positive() && to - from >= amount / r.refill
    ensures Gain(r, from, to) >= amount
  {
    var need := amount / r.refill;
    assert need * r.refill == amount;
    assert (to - from - need) * r.refill >= 0.0;
  }

  // ----- all keys: pruning and denied calls are invisible -----

  datatype Event = Allow(key: Key, cost: real, at: real) | Prune(idle: real, at: real)

  function Step(r: Rate, m: Buckets, e: Event): Buckets {
    match e
    case Allow(k, cost, now) => m[k := Spend(r, Get(m, k), cost, now)]
    case Prune(idle, now) => Pruned(m, now - idle)
  }

  /** The answers of the `Allow` events, in order. */
  function Answers(r: Rate, m: Buckets, events: seq<Event>): seq<bool>
    decreases |events|
  {
    if events == [] then []
    else
      (match events[0]
       case Allow(k, cost, now) => [Granted(r, Get(m, k), cost, now)]
       case Prune(_, _) => []) + Answers(r, Step(r, m, events[0]), events[1..])
  }

  function WithoutPrunes(events: seq<Event>): seq<Event> {
    if events == [] then []
    else (if events[0].Prune? then [] else [events[0]]) + WithoutPrunes(events[1..])
  }

  ghost predicate InOrder(events: seq<Event>, from: real) {
    (forall i | 0 <= i < |events| :: from <= events[i].at) &&
    forall i, j | 0 <= i < j < |events| :: events[i].at <= events[j].at
  }

  ghost predicate PrunesAt(events: seq<Event>, idle: real) {
    forall i | 0 <= i < |events| && events[i].Prune? :: events[i].idle == idle
  }

  /** Nothing overdrawn and nothing written in the future. */
  ghost predicate Sound(m: Buckets, now: real) {
    forall k | k in m :: m[k].tokens >= 0.0 && m[k].last <= now
  }

  /** From `now` on the two maps cannot be told apart. */
  ghost predicate Alike(r: Rate, m: Buckets, m': Buckets, now: real) {
    forall k, t | now <= t :: Level(r, Get(m, k), t) == Level(r, Get(m', k), t)
  }

  lemma StepIsSound(r: Rate, m: Buckets, e: Event, from: real)
    requires r.Positive() && Sound(m, from) && from <= e.at
    ensures Sound(Step(r, m, e), e.at)
  {
    hide Gain;
    if e.Allow? && e.key in m { GainGrows(r, m[e.key].last, e.at); }
  }

  lemma PruneIsAlike(r: Rate, m: Buckets, idle: real, now: real)
    requires r.Positive() && Sound(m, now) && idle >= r.capacity / r.refill
    ensures Alike(r, Pruned(m, now - idle), m, now)
  {
    hide Gain;
    forall k, t | now <= t
      ensures Level(r, Get(Pruned(m, now - idle), k), t) == Level(r, Get(m, k), t)
    {
      if k in m && m[k].last < now - idle { GainCovers(r, m[k].last, t, r.capacity); }
    }
  }

  /** A refused call leaves the limiter as it was. */
  lemma DeniedIsAlike(r: Rate, m: Buckets, k: Key, cost: real, now: real)
    requires r.Positive() && Sound(m, now) && !Granted(r, Get(m, k), cost, now)
    ensures Alike(r, Step(r, m, Allow(k, cost, now)), m, now)
  {
    hide Gain;
    var m' := Step(r, m, Allow(k, cost, now));
    forall k', t | now <= t ensures Level(r, Get(m', k'), t) == Level(r, Get(m, k'), t) {
      if k' == k {
        GainGrows(r, now, t);
        if k in m { GainAdds(r, m[k].last, now, t); }
      }
    }
  }

  lemma AllowKeepsAlike(r: Rate, m: Buckets, m': Buckets, e: Event, from: real)
    requires e.Allow? && from <= e.at && Alike(r, m, m', from)
    ensures Granted(r, Get(m, e.key), e.cost, e.at) == Granted(r, Get(m', e.key), e.cost, e.at)
    ensures Alike(r, Step(r, m, e), Step(r, m', e), e.at)
  {
    hide Gain;
    assert Level(r, Get(m, e.key), e.at) == Level(r, Get(m', e.key), e.at);
    var n, n' := Step(r, m, e), Step(r, m', e);
    forall k, t | e.at <= t ensures Level(r, Get(n, k), t) == Level(r, Get(n', k), t) {
      if k != e.key { assert Get(n, k) == Get(m, k) && Get(n', k) == Get(m', k); }
    }
  }

  lemma {:induction false} AlikeAnswers(r: Rate, m: Buckets, m': Buckets, events: seq<Event>, idle: real, from: real)
    requires r.Positive() && idle >= r.capacity / r.refill
    requires Sound(m, from) && Alike(r, m, m', from)
    requires InOrder(events, from) && PrunesAt(events, idle)
    ensures Answers(r, m, events) == Answers(r, m', WithoutPrunes(events))
    decreases |events|
  {
    hide Gain, Level;
    if events != [] {
      var e, rest := events[0], events[1..];
      var n := Step(r, m, e);
      StepIsSound(r, m, e, from);
      if e.Prune? {
        assert Alike(r, n, m', e.at) by {
          PruneIsAlike(r, m, e.idle, e.at);
          forall k, t | e.at <= t ensures Level(r, Get(n, k), t) == Level(r, Get(m', k), t) {
            assert Level(r, Get(n, k), t) == Level(r, Get(m, k), t);
          }
        }
        assert WithoutPrunes(events) == WithoutPrunes(rest);
        AlikeAnswers(r, n, m', rest, idle, e.at);
        assert Answers(r, m, events) == Answers(r, n, rest);
      } else {
        AllowKeepsAlike(r, m, m', e, from);
        var n' := Step(r, m', e);
        AlikeAnswers(r, n, n', rest, idle, e.at);
        assert WithoutPrunes(events) == [e] + WithoutPrunes(rest);
        assert ([e] + WithoutPrunes(rest))[1..] == WithoutPrunes(rest);
      }
    }
  }

  ghost predicate PruneIsInvisible(r: Rate, idle: real) {
    forall events, from | InOrder(events, from) && PrunesAt(events, idle) ::
      Answers(r, map[], events) == Answers(r, map[], WithoutPrunes(events))
  }

  lemma AnswersCons(r: Rate, m: Buckets, e: Event, rest: seq<Event>)
    ensures Answers(r, m, [e] + rest) ==
            (if e.Allow? then [Granted(r, Get(m, e.key), e.cost, e.at)] else []) +
            Answers(r, Step(r, m, e), rest)
    ensures WithoutPrunes([e] + rest) == (if e.Prune? then [] else [e]) + WithoutPrunes(rest)
  {
    hide Level, Gain;
    assert ([e] + rest)[1..] == rest;
  }

  /** A full spend, a prune before the bucket is full again, and the same spend: granted only because
      of the prune. */
  lemma EarlyPruneShows(r: Rate, idle: real)
    requires r.Positive() && idle < r.capacity / r.refill
    ensures !PruneIsInvisible(r, idle)
  {
    var t := TimeBetween(r, idle);
    GainAdds(r, 0.0, 0.0, 0.0);
    hide Gain, Answers, WithoutPrunes;
    var a, p, b := Allow("u", r.capacity, 0.0), Prune(idle, t), Allow("u", r.capacity, t);
    var events := [a] + ([p] + ([b] + []));
    var m1 := Step(r, map[], a);
    assert m1 == map["u" := Bucket(0.0, 0.0)] && Step(r, m1, p) == map[];
    AnswersCons(r, map[], a, [p] + ([b] + []));
    AnswersCons(r, m1, p, [b] + []);
    AnswersCons(r, map[], b, []);
    AnswersCons(r, map[], a, [b] + []);
    AnswersCons(r, m1, b, []);
    NoAnswers(r);
    assert WithoutPrunes(events) == [a] + ([b] + []);
    var yes: seq<bool> := [true];
    assert Answers(r, map[], events) == yes + ([] + (yes + []));
    assert Answers(r, map[], WithoutPrunes(events)) == yes + ([false] + []);
    assert (yes + ([] + (yes + [])))[1] && !(yes + ([false] + []))[1];
    assert InOrder(events, 0.0) && PrunesAt(events, idle);
  }

  lemma NoAnswers(r: Rate)
    ensures forall m :: Answers(r, m, []) == []
    ensures WithoutPrunes([]) == []
  {
  }

  /** A moment after `idle` seconds at which an empty bucket is not yet full. */
  lemma TimeBetween(r: Rate, idle: real) returns (t: real)
    requires r.Positive() && idle < r.capacity / r.refill
    ensures 0.0 < t && idle < t && Gain(r, 0.0, t) < r.capacity
  {
    var full := r.capacity / r.refill;
    t := ((if idle > 0.0 then idle else 0.0) + full) / 2.0;
    assert full * r.refill == r.capacity;
    assert (full - t) * r.refill > 0.0;
  }

  /** Pruning changes no answer of any run exactly when the idle time covers a full refill. */
  lemma PruneInvisibleIff(r: Rate, idle: real)
    requires r.Positive()
    ensures PruneIsInvisible(r, idle) <==> idle >= r.capacity / r.refill
  {
    if idle >= r.capacity / r.refill {
      forall events, from | InOrder(events, from) && PrunesAt(events, idle)
        ensures Answers(r, map[], events) == Answers(r, map[], WithoutPrunes(events))
      {
        AlikeAnswers(r, map[], map[], events, idle, from);
      }
    } else {
      EarlyPruneShows(r, idle);
    }
  }

  /** A denied call changes no later answer, for any key. */
  lemma DeniedCallIsInvisible(r: Rate, m: Buckets, k: Key, cost: real, now: real, later: seq<Event>)
    requires r.Positive() && Sound(m, now) && !Granted(r, Get(m, k), cost, now)
    requires InOrder(later, now) && forall i | 0 <= i < |later| :: later[i].Allow?
    ensures Answers(r, Step(r, m, Allow(k, cost, now)), later) == Answers(r, m, later)
  {
    hide Gain, Level;
    DeniedIsAlike(r, m, k, cost, now);
    StepIsSound(r, m, Allow(k, cost, now), now);
    AlikeAnswers(r, Step(r, m, Allow(k, cost, now)), m, later, r.capacity / r.refill, now);
    AllowsAlone(later);
  }

  lemma {:induction false} AllowsAlone(events: seq<Event>)
    requires forall i | 0 <= i < |events| :: events[i].Allow?
    ensures WithoutPrunes(events) == events
  {
    if events != [] { AllowsAlone(events[1..]); }
  }

  lemma {:induction false} AgreeingAnswers(r: Rate, m: Buckets, m': Buckets, events: seq<Event>)
    requires forall i | 0 <= i < |events| :: events[i].Allow? && Get(m, events[i].key) == Get(m', events[i].key)
    ensures Answers(r, m, events) == Answers(r, m', events)
    decreases |events|
  {
    hide Gain, Level;
    if events != [] {
      var n, n' := Step(r, m, events[0]), Step(r, m', events[0]);
      forall i | 1 <= i < |events| ensures Get(n, events[i].key) == Get(n', events[i].key) {
        assert Get(m, events[i].key) == Get(m', events[i].key);
      }
      AgreeingAnswers(r, n, n', events[1..]);
    }
  }

  /** A discarded key starts again with a full bucket, and no other key notices. */
  lemma DiscardForgets(r: Rate, m: Buckets, k: Key, events: seq<Event>)
    requires forall i | 0 <= i < |events| :: events[i].Allow?
    ensures (forall i | 0 <= i < |events| :: events[i].key == k) ==>
        Answers(r, m - {k}, events) == Answers(r, map[], events)
    ensures (forall i | 0 <= i < |events| :: events[i].key != k) ==>
        Answers(r, m - {k}, events) == Answers(r, m, events)
  {
    if forall i | 0 <= i < |events| :: events[i].key == k { AgreeingAnswers(r, m - {k}, map[], events); }
    if forall i | 0 <= i < |events| :: events[i].key != k { AgreeingAnswers(r, m - {k}, m, events); }
  }

  // ----- the Redis script: a bucket that expires -----

  datatype Entry = Entry(tokens: real, ts: real, expires: real)

  function Ceil(x: real): int {
    -((-x).Floor)
  }

  function Ttl(r: Rate): real
    requires r.refill > 0.0
  {
    (Ceil(r.capacity / r.refill) * 2 + 60) as real
  }

  function Live(store: map<Key, Entry>, k: Key, now: real): Option<Bucket> {
    if k in store && now < store[k].expires then Some(Bucket(store[k].tokens, store[k].ts)) else None
  }

  function LuaStep(r: Rate, store: map<Key, Entry>, k: Key, cost: real, now: real): map<Key, Entry>
    requires r.refill > 0.0
  {
    var b := Spend(r, Live(store, k, now), cost, now);
    store[k := Entry(b.tokens, now, now + Ttl(r))]
  }

  function LuaAnswers(r: Rate, store: map<Key, Entry>, events: seq<Event>): seq<bool>
    requires r.refill > 0.0 && forall i | 0 <= i < |events| :: events[i].Allow?
    decreases |events|
  {
    if events == [] then []
    else
      var Allow(k, cost, now) := events[0];
      [Granted(r, Live(store, k, now), cost, now)] + LuaAnswers(r, LuaStep(r, store, k, cost, now), events[1..])
  }

  /** The script's store and the in-memory buckets show the same level at every time. */
  ghost predicate Mirrors(r: Rate, store: map<Key, Entry>, m: Buckets) {
    forall k, t :: Level(r, Live(store, k, t), t) == Level(r, Get(m, k), t)
  }

  lemma TtlCoversRefill(r: Rate)
    requires r.Positive()
    ensures Ttl(r) >= r.capacity / r.refill
  {
    var full := r.capacity / r.refill;
    assert full >= 0.0;
    assert Ceil(full) as real >= full;
  }

  lemma LuaStepMirrors(r: Rate, store: map<Key, Entry>, m: Buckets, k: Key, cost: real, now: real)
    requires r.Positive() && Mirrors(r, store, m)
    requires Sound(m, now)
    ensures Granted(r, Live(store, k, now), cost, now) == Granted(r, Get(m, k), cost, now)
    ensures Mirrors(r, LuaStep(r, store, k, cost, now), Step(r, m, Allow(k, cost, now)))
  {
    hide Gain;
    var store', m' := LuaStep(r, store, k, cost, now), Step(r, m, Allow(k, cost, now));
    assert Level(r, Live(store, k, now), now) == Level(r, Get(m, k), now);
    StepIsSound(r, m, Allow(k, cost, now), now);
    forall k', t ensures Level(r, Live(store', k', t), t) == Level(r, Get(m', k'), t) {
      if k' == k {
        if t >= now + Ttl(r) {
          TtlCoversRefill(r);
          GainCovers(r, now, t, r.capacity);
        }
      } else {
        assert Get(m', k') == Get(m, k') && Live(store', k', t) == Live(store, k', t);
      }
    }
  }

  /** Key expiry is invisible: the script answers every run as the in-memory limiter does. */
  lemma {:induction false} LuaAgreesWithMemory(r: Rate, store: map<Key, Entry>, m: Buckets, events: seq<Event>,
                                                from: real)
    requires r.Positive() && Sound(m, from) && Mirrors(r, store, m)
    requires InOrder(events, from) && forall i | 0 <= i < |events| :: events[i].Allow?
    ensures LuaAnswers(r, store, events) == Answers(r, m, events)
    decreases |events|
  {
    hide Gain, Level;
    if events != [] {
      var Allow(k, cost, now) := events[0];
      LuaStepMirrors(r, store, m, k, cost, now);
      StepIsSound(r, m, events[0], from);
      LuaAgreesWithMemory(r, LuaStep(r, store, k, cost, now), Step(r, m, events[0]), events[1..], now);
    }
  }
}
