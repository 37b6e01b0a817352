/**
 The token-bucket rate limiter. Times are seconds and tokens are reals: the source's double rounding is
 not modelled. The order in which the source's hash map gives up entries is arbitrary, so a victim of the
 capacity loop is any tracked client.
 */
module RateLimiter {
  import opened Collections

  type Key = string

  datatype Bucket = Bucket(tokens: real, updated: real)

  datatype Options = Options(maxRequests: nat, window: int, maxTracked: nat)

  function Capacity(o: Options): (r: real)
    ensures r >= 0.0
  {
    o.maxRequests as real
  }

  function Rate(o: Options): (r: real)
    ensures r >= 0.0 && (o.maxRequests > 0 ==> r > 0.0)
  {
    Capacity(o) / (if o.window > 1 then o.window as real else 1.0)
  }

  function Min(a: real, b: real): real {
    if a <= b then a else b
  }

  // ---------- One bucket ----------

  /** The level after `elapsed` seconds. */
  function Refill(o: Options, level: real, elapsed: real): real {
    Min(Capacity(o), level + elapsed * Rate(o))
  }

  /** A request takes one token if there is one. */
  function Spend(level: real): real {
    if level >= 1.0 then level - 1.0 else level
  }

  /** Tokens a client has at `now`; a client that is not tracked has a full bucket. */
  function Level(o: Options, buckets: map<Key, Bucket>, key: Key, now: real): real {
    if key in buckets then Refill(o, buckets[key].tokens, now - buckets[key].updated) else Capacity(o)
  }

  lemma Distribute(a: real, b: real, r: real)
    ensures (a + b) * r == a * r + b * r
  {
  }

  lemma NonNegative(a: real, r: real)
    requires a >= 0.0 && r >= 0.0
    ensures a * r >= 0.0
  {
  }

  lemma RefillTwice(o: Options, level: real, first: real, second: real)
    requires second >= 0.0
    ensures Refill(o, Refill(o, level, first), second) == Refill(o, level, first + second)
  {
    hide Rate, Capacity;
    Distribute(first, second, Rate(o));
    NonNegative(second, Rate(o));
  }

  lemma RefillNow(o: Options, level: real)
    requires level <= Capacity(o)
    ensures Refill(o, level, 0.0) == level
  {
    assert 0.0 * Rate(o) == 0.0;
  }

  lemma RefillBounds(o: Options, level: real, elapsed: real)
    requires level >= 0.0 && elapsed >= 0.0
    ensures 0.0 <= Refill(o, level, elapsed) <= Capacity(o)
    ensures Refill(o, level, elapsed) <= level + elapsed * Rate(o)
  {
    NonNegative(elapsed, Rate(o));
  }

  // ---------- The limiter ----------

  datatype Limiter = Limiter(buckets: map<Key, Bucket>, lastSweep: real)

  /** All that is known at `now`: no bucket is overfull or from the future. */
  ghost predicate Valid(o: Options, l: Limiter, now: real) {
    forall k :: k in l.buckets ==> l.buckets[k].tokens <= Capacity(o) && l.buckets[k].updated <= now
  }

  predicate Refilled(o: Options, b: Bucket, now: real) {
    b.tokens + (now - b.updated) * Rate(o) >= Capacity(o)
  }

  function Sweep(o: Options, buckets: map<Key, Bucket>, now: real): map<Key, Bucket> {
    map k | k in buckets && !Refilled(o, buckets[k], now) :: buckets[k]
  }

  predicate SweepDue(o: Options, l: Limiter, now: real) {
    || now - l.lastSweep >= o.window as real
    || (|l.buckets| >= o.maxTracked && now - l.lastSweep >= 1.0)
  }

  /** The table the capacity loop works on. */
  function Tracked(o: Options, l: Limiter, now: real): map<Key, Bucket> {
    if SweepDue(o, l, now) then Sweep(o, l.buckets, now) else l.buckets
  }

  /** One request of `key` at `now`: the capacity loop displaces `victims`, then the bucket decides. */
  ghost predicate Serves(o: Options, l: Limiter, key: Key, now: real, l': Limiter, allowed: bool, victims: set<Key>) {
    var tracked := Tracked(o, l, now);
    var level := Level(o, tracked - victims, key, now);
    && victims <= tracked.Keys
    && key !in victims
    && (victims != {} ==> key !in tracked && |tracked| >= o.maxTracked && |victims| == 1)
    && (allowed <==> level >= 1.0)
    && l'.buckets == (tracked - victims)[key := Bucket(if allowed then level - 1.0 else level, now)]
    && l'.lastSweep == (if SweepDue(o, l, now) then now else l.lastSweep)
  }

  /** Whole seconds a refused client is told to wait. */
  function RetryAfter(o: Options, level: real): int {
    var seconds := if Rate(o) > 0.0 then (1.0 - level) / Rate(o) else o.window as real;
    -(-(if seconds < 1.0 then 1.0 else seconds)).Floor
  }

  class RateLimiter {
    const o: Options
    var buckets: map<Key, Bucket>
    var lastSweep: real

    function Abs(): Limiter
      reads this
    {
      Limiter(buckets, lastSweep)
    }

    constructor (maxRequests: nat, window: int, maxTrackedClients: nat, now: real)
      ensures o == Options(maxRequests, window, if maxTrackedClients == 0 then 1 else maxTrackedClients)
      ensures Abs() == Limiter(map[], now)
    {
      o := Options(maxRequests, window, if maxTrackedClients == 0 then 1 else maxTrackedClients);
      buckets, lastSweep := map[], now;
    }

    /** Drops every client whose bucket would be full by now. */
    method EvictRefilled(now: real)
      modifies this
      ensures buckets == Sweep(o, old(buckets), now) && lastSweep == now
    {
      var todo := buckets.Keys;
      while todo != {}
        invariant todo <= buckets.Keys <= old(buckets).Keys
        invariant forall k :: k in buckets ==> buckets[k] == old(buckets)[k]
        invariant forall k :: k in old(buckets) && k !in todo ==>
                    (k in buckets <==> !Refilled(o, old(buckets)[k], now))
        decreases |todo|
      {
        var k :| k in todo;
        if Refilled(o, buckets[k], now) {
          buckets := buckets - {k};
        }
        todo := todo - {k};
      }
      lastSweep := now;
    }

    /** Still full of clients that are mid-window: makes room for `key` rather than grow. */
    method Displace(key: Key) returns (victims: set<Key>)
      requires 0 < o.maxTracked && |buckets| <= o.maxTracked
      modifies this`buckets
      ensures victims <= old(buckets).Keys && key !in victims && buckets == old(buckets) - victims
      ensures victims != {} ==> key !in old(buckets) && |old(buckets)| >= o.maxTracked && |victims| == 1
      ensures |buckets| < o.maxTracked || (key in buckets && |buckets| == o.maxTracked)
    {
      victims := {};
      while |buckets| >= o.maxTracked && key !in buckets
        invariant victims <= old(buckets).Keys && key !in victims && buckets == old(buckets) - victims
        invariant |buckets| <= o.maxTracked
        invariant victims != {} ==>
                    key !in old(buckets) && |old(buckets)| >= o.maxTracked && |victims| == 1 && |buckets| < o.maxTracked
        decreases |buckets|
      {
        var victim :| victim in buckets;
        DropKey(buckets, victim);
        buckets := buckets - {victim};
        victims := victims + {victim};
      }
    }

    /** Sweeps if it is time to, then makes room; returns the clients displaced by the capacity loop. */
    method MakeRoom(key: Key, now: real) returns (victims: set<Key>)
      requires 0 < o.maxTracked && |buckets| <= o.maxTracked
      modifies this
      ensures var tracked := Tracked(o, old(Abs()), now);
              && victims <= tracked.Keys && key !in victims && buckets == tracked - victims
              && (victims != {} ==> key !in tracked && |tracked| >= o.maxTracked && |victims| == 1)
      ensures lastSweep == if SweepDue(o, old(Abs()), now) then now else old(lastSweep)
      ensures |buckets| < o.maxTracked || (key in buckets && |buckets| == o.maxTracked)
    {
      var sinceSweep := now - lastSweep;
      if sinceSweep >= o.window as real || (|buckets| >= o.maxTracked && sinceSweep >= 1.0) {
        EvictRefilled(now);
        SweepIsSmaller(o, old(buckets), now);
      }
      victims := Displace(key);
    }

    /** One request. The victims of the capacity loop are reported for the contract. */
    method Request(key: Key, now: real) returns (allowed: bool, retryAfter: int, victims: set<Key>)
      requires 0 < o.maxTracked && |buckets| <= o.maxTracked
      modifies this
      ensures Serves(o, old(Abs()), key, now, Abs(), allowed, victims)
      ensures |buckets| <= o.maxTracked
      ensures !allowed ==> retryAfter == RetryAfter(o, buckets[key].tokens)
    {
      victims := MakeRoom(key, now);
      var kept := buckets;
      var tokens := Capacity(o);
      if key in buckets {
        tokens := Min(Capacity(o), buckets[key].tokens + (now - buckets[key].updated) * Rate(o));
      }
      assert tokens == Level(o, kept, key, now);
      retryAfter := 0;
      allowed := tokens >= 1.0;
      if allowed {
        tokens := tokens - 1.0;
      } else {
        retryAfter := RetryAfter(o, tokens);
      }
      PutKey(kept, key, Bucket(tokens, now));
      buckets := kept[key := Bucket(tokens, now)];
    }
  }

  lemma {:induction false} SweepIsSmaller(o: Options, buckets: map<Key, Bucket>, now: real)
    ensures |Sweep(o, buckets, now)| <= |buckets|
  {
    SubsetSize(Sweep(o, buckets, now).Keys, buckets.Keys);
  }

  lemma {:induction false} SubsetSize(a: set<Key>, b: set<Key>)
    requires a <= b
    ensures |a| <= |b|
  {
    if a != {} {
      var k :| k in a;
      SubsetSize(a - {k}, b - {k});
    }
  }

  // ---------- Runs of the limiter against one bucket per client ----------

  /** What may happen to the table: requests, and sweeps at any time. */
  datatype Act = Served(key: Key, time: real, allowed: bool, victims: set<Key>) | Swept(time: real)

  ghost predicate Does(o: Options, l: Limiter, act: Act, l': Limiter) {
    match act
    case Served(key, now, allowed, victims) => Serves(o, l, key, now, l', allowed, victims)
    case Swept(now) => l' == Limiter(Sweep(o, l.buckets, now), now)
  }

  /** Actions from `l` on, in the order of a clock that never runs backwards; `ls` are the states after each. */
  ghost predicate IsRun(o: Options, l: Limiter, since: real, acts: seq<Act>, ls: seq<Limiter>)
    decreases |acts|
  {
    |ls| == |acts| &&
    (acts != [] ==>
      since <= acts[0].time && Does(o, l, acts[0], ls[0]) && IsRun(o, ls[0], acts[0].time, acts[1..], ls[1..]))
  }

  ghost predicate NeverDisplaced(key: Key, acts: seq<Act>) {
    forall i :: 0 <= i < |acts| && acts[i].Served? ==> key !in acts[i].victims
  }

  predicate Mine(key: Key, act: Act) {
    act.Served? && act.key == key
  }

  function Times(key: Key, acts: seq<Act>): seq<real> {
    if acts == [] then [] else (if Mine(key, acts[0]) then [acts[0].time] else []) + Times(key, acts[1..])
  }

  function Decisions(key: Key, acts: seq<Act>): (r: seq<bool>)
    ensures |r| == |Times(key, acts)|
  {
    if acts == [] then [] else (if Mine(key, acts[0]) then [acts[0].allowed] else []) + Decisions(key, acts[1..])
  }

  /** The reference: one bucket that is never forgotten, asked at the given times. */
  function Decide(o: Options, level: real, since: real, times: seq<real>): (r: seq<bool>)
    ensures |r| == |times|
    decreases |times|
  {
    if times == [] then []
    else
      var now := Refill(o, level, times[0] - since);
      [now >= 1.0] + Decide(o, Spend(now), times[0], times[1..])
  }

  lemma LevelLater(o: Options, l: Limiter, key: Key, t: real, later: real)
    requires Valid(o, l, t) && t <= later
    ensures Level(o, l.buckets, key, later) == Refill(o, Level(o, l.buckets, key, t), later - t)
    ensures Level(o, l.buckets, key, t) <= Capacity(o)
  {
    hide Rate, Capacity;
    if key in l.buckets {
      RefillTwice(o, l.buckets[key].tokens, t - l.buckets[key].updated, later - t);
    } else {
      NonNegative(later - t, Rate(o));
    }
  }

  /** Forgetting a refilled bucket changes no client's level. */
  lemma SweepUnseen(o: Options, l: Limiter, key: Key, now: real)
    requires Valid(o, l, now)
    ensures Level(o, Sweep(o, l.buckets, now), key, now) == Level(o, l.buckets, key, now)
    ensures Valid(o, Limiter(Sweep(o, l.buckets, now), now), now)
  {
  }

  /** What the sweep forgets is exactly the full buckets. */
  lemma RefilledIsFull(o: Options, l: Limiter, key: Key, now: real)
    requires Valid(o, l, now) && key in l.buckets
    ensures key in Sweep(o, l.buckets, now) <==> Level(o, l.buckets, key, now) < Capacity(o)
  {
  }

  /**
   A request a window after the last sweep, or a second after it while the table is full, leaves no full bucket
   of another client behind; any other forgets nobody but a displaced one.
   */
  lemma SweepOnTime(o: Options, l: Limiter, key: Key, now: real, l': Limiter, allowed: bool, victims: set<Key>)
    requires Serves(o, l, key, now, l', allowed, victims) && Valid(o, l, now)
    ensures var due := now - l.lastSweep >= o.window as real ||
                       (|l.buckets| >= o.maxTracked && now - l.lastSweep >= 1.0);
            && (due ==> forall k :: k in l'.buckets && k != key ==> Level(o, l'.buckets, k, now) < Capacity(o))
            && (!due ==> l.buckets.Keys <= l'.buckets.Keys + victims)
            && l'.lastSweep == if due then now else l.lastSweep
  {
    hide Refill, Capacity, Refilled, Valid;
    if SweepDue(o, l, now) {
      forall k | k in l'.buckets && k != key
        ensures Level(o, l'.buckets, k, now) < Capacity(o)
      {
        RefilledIsFull(o, l, k, now);
      }
    }
  }

  lemma ValidLater(o: Options, l: Limiter, t: real, later: real)
    requires Valid(o, l, t) && t <= later
    ensures Valid(o, l, later)
  {
  }

  /** A request of `key` acts on its level, and on no other client's that it does not displace. */
  lemma ServesLevel(o: Options, l: Limiter, now: real, act: Act, l': Limiter, other: Key)
    requires Valid(o, l, now) && act.Served? && act.time == now && Does(o, l, act, l')
    ensures Valid(o, l', now)
    ensures act.allowed <==> Level(o, l.buckets, act.key, now) >= 1.0
    ensures Level(o, l'.buckets, act.key, now) == Level(o, l.buckets, act.key, now) - (if act.allowed then 1.0 else 0.0)
    ensures other != act.key && other !in act.victims ==>
              Level(o, l'.buckets, other, now) == Level(o, l.buckets, other, now)
  {
    SweepUnseen(o, l, act.key, now);
    SweepUnseen(o, l, other, now);
    LevelLater(o, l, act.key, now, now);
    var tracked := Tracked(o, l, now);
    assert Level(o, tracked - act.victims, act.key, now) == Level(o, tracked, act.key, now);
    RefillNow(o, l'.buckets[act.key].tokens);
    assert now - now == 0.0;
  }

  /** The level of one client across any action that does not displace it. */
  lemma ActLevel(o: Options, l: Limiter, since: real, act: Act, l': Limiter, key: Key)
    requires Valid(o, l, since) && since <= act.time && Does(o, l, act, l')
    requires act.Served? ==> key !in act.victims
    ensures Valid(o, l', act.time)
    ensures var now := Refill(o, Level(o, l.buckets, key, since), act.time - since);
            && Level(o, l'.buckets, key, act.time) == (if Mine(key, act) then Spend(now) else now)
            && (Mine(key, act) ==> (act.allowed <==> now >= 1.0))
  {
    hide Serves, Sweep, Level, Refill, Valid;
    ValidLater(o, l, since, act.time);
    LevelLater(o, l, key, since, act.time);
    if act.Swept? {
      SweepUnseen(o, l, key, act.time);
    } else {
      ServesLevel(o, l, act.time, act, l', key);
    }
  }

  lemma DecideLater(o: Options, level: real, since: real, later: real, times: seq<real>)
    requires since <= later && (times != [] ==> later <= times[0])
    ensures Decide(o, Refill(o, level, later - since), later, times) == Decide(o, level, since, times)
  {
    if times != [] {
      RefillTwice(o, level, later - since, times[0] - later);
    }
  }

  lemma {:induction false} TimesAfter(o: Options, l: Limiter, since: real, acts: seq<Act>, ls: seq<Limiter>, key: Key)
    requires IsRun(o, l, since, acts, ls)
    ensures Times(key, acts) != [] ==> since <= Times(key, acts)[0]
    decreases |acts|
  {
    if acts != [] {
      TimesAfter(o, ls[0], acts[0].time, acts[1..], ls[1..], key);
    }
  }

  /**
   Over every run, with any sweeps and any other clients, a client that is never displaced gets exactly the
   decisions of a single bucket that is never forgotten.
   */
  lemma {:induction false} ClientSeesOneBucket(
    o: Options, l: Limiter, since: real, acts: seq<Act>, ls: seq<Limiter>, key: Key)
    requires Valid(o, l, since) && IsRun(o, l, since, acts, ls) && NeverDisplaced(key, acts)
    ensures Decisions(key, acts) == Decide(o, Level(o, l.buckets, key, since), since, Times(key, acts))
    decreases |acts|
  {
    hide Level, Refill, Valid, Decide, Does, Times, Decisions;
    var level := Level(o, l.buckets, key, since);
    if acts == [] {
      NoActs(o, level, since, key);
    } else {
      var act, l', rest := acts[0], ls[0], acts[1..];
      assert NeverDisplaced(key, rest);
      ActLevel(o, l, since, act, l', key);
      ClientSeesOneBucket(o, l', act.time, rest, ls[1..], key);
      if Mine(key, act) {
        MineFirst(o, level, since, key, acts);
      } else {
        NotMineFirst(key, acts);
        TimesAfter(o, l', act.time, rest, ls[1..], key);
        DecideLater(o, level, since, act.time, Times(key, rest));
      }
    }
  }

  lemma NoActs(o: Options, level: real, since: real, key: Key)
    ensures Decisions(key, []) == Decide(o, level, since, Times(key, []))
  {
  }

  lemma NotMineFirst(key: Key, acts: seq<Act>)
    requires acts != [] && !Mine(key, acts[0])
    ensures Times(key, acts) == Times(key, acts[1..]) && Decisions(key, acts) == Decisions(key, acts[1..])
  {
  }

  lemma MineFirst(o: Options, level: real, since: real, key: Key, acts: seq<Act>)
    requires acts != [] && Mine(key, acts[0])
    ensures Decisions(key, acts) == [acts[0].allowed] + Decisions(key, acts[1..])
    ensures var now := Refill(o, level, acts[0].time - since);
            Decide(o, level, since, Times(key, acts)) ==
            [now >= 1.0] + Decide(o, Spend(now), acts[0].time, Times(key, acts[1..]))
  {
    assert Times(key, acts)[1..] == Times(key, acts[1..]);
  }

  // ---------- What one bucket promises ----------

  function Count(ds: seq<bool>): nat {
    if ds == [] then 0 else (if ds[0] then 1 else 0) + Count(ds[1..])
  }

  ghost predicate Ordered(since: real, times: seq<real>)
    decreases |times|
  {
    times != [] ==> since <= times[0] && Ordered(times[0], times[1..])
  }

  lemma {:induction false} AdmittedBound(o: Options, level: real, since: real, times: seq<real>, until: real)
    requires 0.0 <= level && Ordered(since, times) && since <= until
    requires forall i :: 0 <= i < |times| ==> times[i] <= until
    ensures Count(Decide(o, level, since, times)) as real <= level + (until - since) * Rate(o)
    decreases |times|
  {
    hide Rate, Refill;
    if times == [] {
      NonNegative(until - since, Rate(o));
    } else {
      var now := Refill(o, level, times[0] - since);
      RefillBounds(o, level, times[0] - since);
      Distribute(times[0] - since, until - times[0], Rate(o));
      AdmittedBound(o, Spend(now), times[0], times[1..], until);
      var rest := Decide(o, Spend(now), times[0], times[1..]);
      assert Decide(o, level, since, times) == [now >= 1.0] + rest;
      CountFirst(now >= 1.0, rest);
    }
  }

  lemma CountFirst(d: bool, ds: seq<bool>)
    ensures Count([d] + ds) == (if d then 1 else 0) + Count(ds)
  {
    assert ([d] + ds)[1..] == ds;
  }

  /** The level just before the i-th decision. */
  function LevelBefore(o: Options, level: real, since: real, times: seq<real>, i: nat): real
    requires i < |times|
    decreases |times|
  {
    var now := Refill(o, level, times[0] - since);
    if i == 0 then now
    else LevelBefore(o, Spend(now), times[0], times[1..], i - 1)
  }

  /** From any request on, the decisions are those of a bucket at that request's level. */
  lemma {:induction false} DecideFrom(o: Options, level: real, since: real, times: seq<real>, i: nat)
    requires i < |times| && 0.0 <= level && Ordered(since, times)
    ensures var here := LevelBefore(o, level, since, times, i);
            && 0.0 <= here <= Capacity(o)
            && Ordered(times[i], times[i..])
            && Decide(o, level, since, times)[i..] == Decide(o, here, times[i], times[i..])
            && (Decide(o, level, since, times)[i] <==> here >= 1.0)
    decreases |times|
  {
    hide Rate, Refill, Capacity;
    var now := Refill(o, level, times[0] - since);
    RefillBounds(o, level, times[0] - since);
    RefillNow(o, now);
    if i > 0 {
      var next := Spend(now);
      DecideFrom(o, next, times[0], times[1..], i - 1);
      assert times[1..][i - 1..] == times[i..];
      var ds := Decide(o, level, since, times);
      assert ds[1..] == Decide(o, next, times[0], times[1..]);
      assert ds[i..] == ds[1..][i - 1..];
    } else {
      assert times[0..] == times;
      assert Decide(o, level, since, times)[0..] == Decide(o, level, since, times);
    }
  }

  lemma {:induction false} DecidePrefix(o: Options, level: real, since: real, times: seq<real>, n: nat)
    requires n <= |times|
    ensures Decide(o, level, since, times[..n]) == Decide(o, level, since, times)[..n]
    decreases |times|
  {
    if n > 0 {
      var now := Refill(o, level, times[0] - since);
      DecidePrefix(o, Spend(now), times[0], times[1..], n - 1);
      assert times[..n][1..] == times[1..][..n - 1];
    }
  }

  lemma {:induction false} OrderedPrefix(since: real, times: seq<real>, n: nat)
    requires Ordered(since, times) && n <= |times|
    ensures Ordered(since, times[..n])
    ensures forall i, j :: 0 <= i <= j < |times| ==> since <= times[i] <= times[j]
    decreases |times|
  {
    if times != [] {
      OrderedPrefix(times[0], times[1..], if n > 0 then n - 1 else 0);
      if n > 0 {
        assert times[..n][1..] == times[1..][..n - 1];
      }
      forall i, j | 0 <= i <= j < |times|
        ensures since <= times[i] <= times[j]
      {
        if i > 0 {
          assert times[i] == times[1..][i - 1] && times[j] == times[1..][j - 1];
        } else if j > 0 {
          assert times[j] == times[1..][j - 1];
          assert times[0] <= times[1..][j - 1];
        }
      }
    }
  }

  /** What may be admitted from request i to request j. */
  function Allowance(o: Options, times: seq<real>, i: nat, j: nat): real
    requires i < |times| && j < |times|
  {
    Capacity(o) + (times[j] - times[i]) * Rate(o)
  }

  /** The length of the window; one shorter than a second counts as a second. */
  function Seconds(o: Options): (w: real)
    ensures w >= 1.0
  {
    if o.window >= 1 then o.window as real else 1.0
  }

  /** n requests in `elapsed` seconds are within the limit: maxRequests at once, and maxRequests more per window. */
  ghost predicate WithinLimit(o: Options, n: nat, elapsed: real) {
    n as real * Seconds(o) <= o.maxRequests as real * (Seconds(o) + elapsed)
  }

  lemma RatePerWindow(o: Options)
    ensures Rate(o) * Seconds(o) == o.maxRequests as real
  {
  }

  lemma Commute(a: real, b: real, c: real)
    ensures a * b * c == a * (c * b) && a * (b * c) == a * (c * b)
  {
  }

  lemma Scaled(x: real, y: real, w: real)
    requires w > 0.0
    ensures x <= y <==> x * w <= y * w
  {
    Distribute(x, y - x, w);
    if x <= y {
      NonNegative(y - x, w);
    } else {
      Positive(x - y, w);
      Distribute(y, x - y, w);
    }
  }

  /** The rate limit in terms of the options alone. */
  lemma AllowanceIsLimit(o: Options, times: seq<real>, i: nat, j: nat, n: nat)
    requires i < |times| && j < |times|
    ensures n as real <= Allowance(o, times, i, j) <==> WithinLimit(o, n, times[j] - times[i])
  {
    hide Rate, Seconds;
    var e, c, w := times[j] - times[i], Capacity(o), Seconds(o);
    RatePerWindow(o);
    Distribute(c, e * Rate(o), w);
    Commute(e, Rate(o), w);
    Commute(e, Rate(o) * w, 1.0);
    assert Allowance(o, times, i, j) * w == c * w + e * c;
    assert c * (w + e) == c * w + e * c by {
      Distribute(w, e, c);
    }
    Scaled(n as real, Allowance(o, times, i, j), w);
  }

  /** The bound: the requests i to j that are admitted are within the limit for the time between them. */
  lemma RateIsBounded(o: Options, since: real, times: seq<real>, i: nat, j: nat)
    requires Ordered(since, times) && i < j <= |times|
    ensures WithinLimit(o, Count(Decide(o, Capacity(o), since, times)[i..j]), times[j - 1] - times[i])
  {
    hide WithinLimit, Allowance, Decide, Count, Ordered;
    StretchBounded(o, since, times, i, j);
    AllowanceIsLimit(o, times, i, j - 1, Count(Decide(o, Capacity(o), since, times)[i..j]));
  }

  lemma StretchBounded(o: Options, since: real, times: seq<real>, i: nat, j: nat)
    requires Ordered(since, times) && i < j <= |times|
    ensures Count(Decide(o, Capacity(o), since, times)[i..j]) as real <=
            Allowance(o, times, i, j - 1)
  {
    hide Decide, Count, Ordered, Rate, Capacity, LevelBefore;
    var ds := Decide(o, Capacity(o), since, times);
    var here := LevelBefore(o, Capacity(o), since, times, i);
    DecideFrom(o, Capacity(o), since, times, i);
    OrderedPrefix(since, times, 0);
    OrderedPrefix(times[i], times[i..], j - i);
    DecidePrefix(o, here, times[i], times[i..], j - i);
    assert times[i..][..j - i] == times[i..j];
    assert ds[i..][..j - i] == ds[i..j];
    AdmittedBound(o, here, times[i], times[i..j], times[j - 1]);
    var growth := (times[j - 1] - times[i]) * Rate(o);
    assert Count(ds[i..j]) as real <= here + growth;
  }

  lemma {:induction false} LevelNext(o: Options, level: real, since: real, times: seq<real>, j: nat)
    requires j + 1 < |times|
    ensures LevelBefore(o, level, since, times, j + 1) ==
            Refill(o, Spend(LevelBefore(o, level, since, times, j)), times[j + 1] - times[j])
    decreases |times|
  {
    hide Refill, Spend;
    if j > 0 {
      LevelNext(o, Spend(Refill(o, level, times[0] - since)), times[0], times[1..], j - 1);
    }
  }

  lemma {:induction false} CountLast(ds: seq<bool>, i: nat, j: nat)
    requires i <= j < |ds|
    ensures Count(ds[i..j + 1]) == Count(ds[i..j]) + if ds[j] then 1 else 0
    decreases j - i
  {
    if i < j {
      CountLast(ds, i + 1, j);
      assert ds[i..j][1..] == ds[i + 1..j] && ds[i..j + 1][1..] == ds[i + 1..j + 1];
    } else {
      assert ds[i..j] == [] && ds[i..j + 1][1..] == [];
    }
  }

  lemma AllowanceNow(o: Options, times: seq<real>, i: nat)
    requires i < |times|
    ensures Allowance(o, times, i, i) == Capacity(o)
  {
  }

  /** The level drops by what is admitted and rises with the allowance, up to the capacity. */
  lemma LevelStep(o: Options, times: seq<real>, i: nat, j: nat, level: real, admitted: int)
    requires i < |times| && j + 1 < |times| && level == Allowance(o, times, i, j) - admitted as real
    ensures var next := Refill(o, Spend(level), times[j + 1] - times[j]);
            || next == Capacity(o)
            || next == Allowance(o, times, i, j + 1) - (admitted + if level >= 1.0 then 1 else 0) as real
  {
    hide Rate, Capacity;
    Distribute(times[j] - times[i], times[j + 1] - times[j], Rate(o));
  }

  /** The level is what the last full bucket has left: full at some request i, refilled and spent since. */
  lemma {:induction false} LevelSinceFull(o: Options, since: real, times: seq<real>, j: nat) returns (i: nat)
    requires Ordered(since, times) && j < |times|
    ensures i <= j
    ensures LevelBefore(o, Capacity(o), since, times, j) ==
            Allowance(o, times, i, j) - Count(Decide(o, Capacity(o), since, times)[i..j]) as real
    decreases j
  {
    hide Rate, Capacity, Decide, Ordered, Allowance, LevelBefore, Refill, Spend;
    var ds := Decide(o, Capacity(o), since, times);
    if j == 0 {
      i := 0;
      FirstLevel(o, since, times);
      AllowanceNow(o, times, 0);
      assert ds[0..0] == [];
    } else {
      i := LevelSinceFull(o, since, times, j - 1);
      LevelNext(o, Capacity(o), since, times, j - 1);
      DecideFrom(o, Capacity(o), since, times, j - 1);
      CountLast(ds, i, j - 1);
      LevelStep(o, times, i, j - 1, LevelBefore(o, Capacity(o), since, times, j - 1), Count(ds[i..j - 1]));
      if LevelBefore(o, Capacity(o), since, times, j) == Capacity(o) {
        i := j;
        AllowanceNow(o, times, j);
        assert ds[j..j] == [];
      }
    }
  }

  lemma FirstLevel(o: Options, since: real, times: seq<real>)
    requires Ordered(since, times) && times != []
    ensures LevelBefore(o, Capacity(o), since, times, 0) == Capacity(o)
  {
    hide Rate, Capacity;
    NonNegative(times[0] - since, Rate(o));
  }

  /** Admitting request j, on top of those admitted from i on, keeps to the bound. */
  ghost predicate Affordable(o: Options, times: seq<real>, ds: seq<bool>, i: nat, j: nat)
    requires i <= j < |times| && |ds| == |times|
  {
    WithinLimit(o, Count(ds[i..j]) + 1, times[j] - times[i])
  }

  /** The limiter refuses no more than it must: a request is admitted exactly when every stretch affords it. */
  lemma AdmitsAllItCan(o: Options, since: real, times: seq<real>, j: nat)
    requires Ordered(since, times) && j < |times|
    ensures var ds := Decide(o, Capacity(o), since, times);
            ds[j] <==> forall i :: 0 <= i <= j ==> Affordable(o, times, ds, i, j)
  {
    hide Decide, Count, Rate, Capacity, LevelBefore, Ordered, Allowance, WithinLimit;
    var ds := Decide(o, Capacity(o), since, times);
    if ds[j] {
      forall i | 0 <= i <= j
        ensures Affordable(o, times, ds, i, j)
      {
        RateIsBounded(o, since, times, i, j + 1);
        CountLast(ds, i, j);
        assert j + 1 - 1 == j;
      }
    } else {
      var i := LevelSinceFull(o, since, times, j);
      DecideFrom(o, Capacity(o), since, times, j);
      AllowanceIsLimit(o, times, i, j, Count(ds[i..j]) + 1);
      assert !Affordable(o, times, ds, i, j);
    }
  }

  lemma RetryIsEnough(o: Options, level: real, waited: real)
    requires o.maxRequests >= 1 && level <= Capacity(o) && waited >= RetryAfter(o, level) as real
    ensures Refill(o, level, waited) >= 1.0
  {
    var seconds := (1.0 - level) / Rate(o);
    assert RetryAfter(o, level) as real >= seconds;
    LongEnough(level, waited, seconds, Rate(o));
    CapacityPositive(o);
  }

  /** No shorter whole number of seconds would do. */
  lemma RetryIsLeast(o: Options, level: real, k: int)
    requires o.maxRequests >= 1 && level < 1.0 && k >= 1
    ensures Refill(o, level, k as real) >= 1.0 <==> k >= RetryAfter(o, level)
  {
    if k >= RetryAfter(o, level) {
      CapacityPositive(o);
      RetryIsEnough(o, level, k as real);
    } else {
      var seconds := (1.0 - level) / Rate(o);
      assert k as real < seconds;
      TooSoon(level, k as real, seconds, Rate(o));
    }
  }

  lemma CapacityPositive(o: Options)
    requires o.maxRequests >= 1
    ensures Capacity(o) >= 1.0
  {
  }

  lemma TooSoon(level: real, waited: real, seconds: real, rate: real)
    requires rate > 0.0 && seconds == (1.0 - level) / rate && waited < seconds
    ensures level + waited * rate < 1.0
  {
    assert seconds * rate == 1.0 - level;
    Distribute(seconds - waited, waited, rate);
    Positive(seconds - waited, rate);
  }

  lemma LongEnough(level: real, waited: real, seconds: real, rate: real)
    requires rate > 0.0 && seconds == (1.0 - level) / rate && waited >= seconds
    ensures level + waited * rate >= 1.0
  {
    assert seconds * rate == 1.0 - level;
    Distribute(waited - seconds, seconds, rate);
    NonNegative(waited - seconds, rate);
  }

  lemma Positive(a: real, r: real)
    requires a > 0.0 && r > 0.0
    ensures a * r > 0.0
  {
  }

  /** With no requests allowed at all, waiting never helps. */
  lemma {:induction false} NothingAllowed(o: Options, level: real, since: real, times: seq<real>, i: nat)
    requires o.maxRequests == 0 && i < |times|
    ensures !Decide(o, level, since, times)[i]
    decreases |times|
  {
    if i > 0 {
      var now := Refill(o, level, times[0] - since);
      NothingAllowed(o, now, times[0], times[1..], i - 1);
    }
  }

  lemma {:induction false} TimesOrdered(o: Options, l: Limiter, since: real, acts: seq<Act>, ls: seq<Limiter>, key: Key)
    requires IsRun(o, l, since, acts, ls)
    ensures Ordered(since, Times(key, acts))
    decreases |acts|
  {
    hide Does;
    if acts != [] {
      TimesOrdered(o, ls[0], acts[0].time, acts[1..], ls[1..], key);
      if Mine(key, acts[0]) {
        assert Times(key, acts)[1..] == Times(key, acts[1..]);
      } else {
        NotMineFirst(key, acts);
      }
    }
  }

  /** Over every run of the limiter: any stretch of a client's requests is admitted within the bound. */
  lemma LimiterObeysRate(o: Options, start: real, acts: seq<Act>, ls: seq<Limiter>, key: Key, i: nat, j: nat)
    requires IsRun(o, Limiter(map[], start), start, acts, ls) && NeverDisplaced(key, acts)
    requires i < j <= |Times(key, acts)|
    ensures WithinLimit(o, Count(Decisions(key, acts)[i..j]), Times(key, acts)[j - 1] - Times(key, acts)[i])
  {
    hide IsRun, Decide, Count, Times, Decisions, Rate, Ordered, WithinLimit;
    ClientSeesOneBucket(o, Limiter(map[], start), start, acts, ls, key);
    TimesOrdered(o, Limiter(map[], start), start, acts, ls, key);
    RateIsBounded(o, start, Times(key, acts), i, j);
  }

  /** Over every run: the requests of a client that fall within one window are admitted at most twice over. */
  lemma OneWindow(o: Options, start: real, acts: seq<Act>, ls: seq<Limiter>, key: Key, i: nat, j: nat)
    requires IsRun(o, Limiter(map[], start), start, acts, ls) && NeverDisplaced(key, acts)
    requires i < j <= |Times(key, acts)| && Times(key, acts)[j - 1] - Times(key, acts)[i] <= Seconds(o)
    ensures Count(Decisions(key, acts)[i..j]) <= 2 * o.maxRequests
  {
    hide IsRun, Count, Times, Decisions, Seconds;
    LimiterObeysRate(o, start, acts, ls, key, i, j);
    var n, m, w := Count(Decisions(key, acts)[i..j]), o.maxRequests, Seconds(o);
    var elapsed := Times(key, acts)[j - 1] - Times(key, acts)[i];
    Distribute(w - elapsed, w + elapsed, m as real);
    NonNegative(w - elapsed, m as real);
    assert m as real * (w + w) == (2 * m) as real * w;
    Scaled(n as real, (2 * m) as real, w);
  }

  /** An empty bucket is full again after a window, and, if it holds anything at all, not before. */
  lemma RefillTakesWindow(o: Options, elapsed: real)
    requires elapsed >= 0.0
    ensures Refill(o, 0.0, elapsed) <= o.maxRequests as real
    ensures elapsed >= Seconds(o) ==> Refill(o, 0.0, elapsed) == o.maxRequests as real
    ensures o.maxRequests >= 1 && elapsed < Seconds(o) ==> Refill(o, 0.0, elapsed) < o.maxRequests as real
  {
    hide Seconds, Rate;
    RatePerWindow(o);
    var w, r := Seconds(o), Rate(o);
    if elapsed >= w {
      Distribute(elapsed - w, w, r);
      NonNegative(elapsed - w, r);
    } else if o.maxRequests >= 1 {
      RatePositive(o);
      Distribute(w - elapsed, elapsed, r);
      Positive(w - elapsed, r);
    }
  }

  lemma RatePositive(o: Options)
    requires o.maxRequests >= 1
    ensures Rate(o) > 0.0
  {
  }

  /** Over every run of the limiter: a request is admitted exactly when admitting it keeps to the bound. */
  lemma LimiterAdmitsAllItCan(o: Options, start: real, acts: seq<Act>, ls: seq<Limiter>, key: Key, j: nat)
    requires IsRun(o, Limiter(map[], start), start, acts, ls) && NeverDisplaced(key, acts)
    requires j < |Times(key, acts)|
    ensures var times, ds := Times(key, acts), Decisions(key, acts);
            ds[j] <==> forall i :: 0 <= i <= j ==> Affordable(o, times, ds, i, j)
  {
    hide IsRun, Decide, Affordable, Times, Decisions, Rate, Ordered;
    ClientSeesOneBucket(o, Limiter(map[], start), start, acts, ls, key);
    TimesOrdered(o, Limiter(map[], start), start, acts, ls, key);
    AdmitsAllItCan(o, start, Times(key, acts), j);
  }

  lemma DoesKeepsValid(o: Options, l: Limiter, since: real, act: Act, l': Limiter)
    requires Valid(o, l, since) && since <= act.time && Does(o, l, act, l')
    ensures Valid(o, l', act.time)
  {
    hide Serves, Sweep, Level, Refill, Valid;
    ValidLater(o, l, since, act.time);
    if act.Swept? {
      SweepUnseen(o, l, "", act.time);
    } else {
      ServesLevel(o, l, act.time, act, l', "");
    }
  }

  /** A run goes on from each of its states, in which no bucket is overfull. */
  lemma {:induction false} RunFrom(o: Options, l: Limiter, since: real, acts: seq<Act>, ls: seq<Limiter>, i: nat)
    requires Valid(o, l, since) && IsRun(o, l, since, acts, ls) && i < |acts|
    ensures |ls| == |acts|
    ensures Does(o, if i == 0 then l else ls[i - 1], acts[i], ls[i])
    ensures Valid(o, ls[i], acts[i].time) && IsRun(o, ls[i], acts[i].time, acts[i + 1..], ls[i + 1..])
    decreases i
  {
    hide Does, Valid;
    DoesKeepsValid(o, l, since, acts[0], ls[0]);
    if i > 0 {
      RunFrom(o, ls[0], acts[0].time, acts[1..], ls[1..], i - 1);
      assert acts[1..][i..] == acts[i + 1..] && ls[1..][i..] == ls[i + 1..];
    }
  }

  /** While none of its requests is admitted, a client's level only refills. */
  lemma {:induction false} RefusedUntil(
    o: Options, l: Limiter, since: real, acts: seq<Act>, ls: seq<Limiter>, key: Key, j: nat)
    requires Valid(o, l, since) && IsRun(o, l, since, acts, ls) && j < |acts| && Mine(key, acts[j])
    requires NeverDisplaced(key, acts[..j]) && forall k :: 0 <= k < j && Mine(key, acts[k]) ==> !acts[k].allowed
    ensures since <= acts[j].time
    ensures acts[j].allowed <==> Refill(o, Level(o, l.buckets, key, since), acts[j].time - since) >= 1.0
    decreases j
  {
    hide Level, Refill, Valid, Does, NeverDisplaced;
    if j == 0 {
      NotItsOwnVictim(o, l, acts[0], ls[0]);
      ActLevel(o, l, since, acts[0], ls[0], key);
    } else {
      assert Mine(key, acts[0]) ==> !acts[0].allowed;
      NotDisplacedFirst(key, acts, j);
      RefusedStep(o, l, since, acts[0], ls[0], key);
      RefusedUntil(o, ls[0], acts[0].time, acts[1..], ls[1..], key, j - 1);
      RefillTwice(o, Level(o, l.buckets, key, since), acts[0].time - since, acts[j].time - acts[0].time);
    }
  }

  lemma NotItsOwnVictim(o: Options, l: Limiter, act: Act, l': Limiter)
    requires act.Served? && Does(o, l, act, l')
    ensures act.key !in act.victims
  {
  }

  lemma NotDisplacedFirst(key: Key, acts: seq<Act>, j: nat)
    requires 0 < j <= |acts| && NeverDisplaced(key, acts[..j])
    ensures acts[0].Served? ==> key !in acts[0].victims
    ensures NeverDisplaced(key, acts[1..][..j - 1])
  {
    assert acts[..j][0] == acts[0];
    assert acts[1..][..j - 1] == acts[..j][1..];
  }

  lemma RefusedStep(o: Options, l: Limiter, since: real, act: Act, l': Limiter, key: Key)
    requires Valid(o, l, since) && since <= act.time && Does(o, l, act, l')
    requires act.Served? ==> key !in act.victims
    requires Mine(key, act) ==> !act.allowed
    ensures Valid(o, l', act.time)
    ensures Level(o, l'.buckets, key, act.time) == Refill(o, Level(o, l.buckets, key, since), act.time - since)
  {
    hide Level, Refill, Valid, Does;
    ActLevel(o, l, since, act, l', key);
  }

  /** A refused request leaves its client's level in its bucket. */
  lemma RefusedLevel(o: Options, l: Limiter, act: Act, l': Limiter)
    requires act.Served? && !act.allowed && Does(o, l, act, l') && Valid(o, l', act.time)
    ensures act.key in l'.buckets && l'.buckets[act.key].tokens == Level(o, l'.buckets, act.key, act.time)
    ensures Level(o, l'.buckets, act.key, act.time) <= Capacity(o)
  {
    RefillNow(o, l'.buckets[act.key].tokens);
    assert act.time - act.time == 0.0;
  }

  /**
   The advertised wait is kept, over every run of the limiter: after a request refused at i, whose bucket
   then holds the tokens its Retry-After is computed from, the first later request that comes no earlier
   than that wait is admitted, unless the client was admitted or displaced in between.
   */
  lemma RetryAfterIsKept(
    o: Options, start: real, acts: seq<Act>, ls: seq<Limiter>, key: Key, i: nat, j: nat)
    requires IsRun(o, Limiter(map[], start), start, acts, ls) && o.maxRequests >= 1
    requires i < j < |acts| == |ls| && Mine(key, acts[i]) && !acts[i].allowed && Mine(key, acts[j])
    requires NeverDisplaced(key, acts[i + 1..j]) && forall k :: i < k < j && Mine(key, acts[k]) ==> !acts[k].allowed
    ensures key in ls[i].buckets
    ensures acts[j].time - acts[i].time >= RetryAfter(o, ls[i].buckets[key].tokens) as real ==> acts[j].allowed
  {
    hide Level, Refill, Does, RetryAfter, IsRun, Capacity, Valid;
    var l := Limiter(map[], start);
    EmptyValid(o, start);
    RunFrom(o, l, start, acts, ls, i);
    var before := if i == 0 then l else ls[i - 1];
    RefusedLevel(o, before, acts[i], ls[i]);
    var rest := acts[i + 1..];
    var n := j - i - 1;
    assert rest[..n] == acts[i + 1..j] && rest[n] == acts[j];
    forall k | 0 <= k < n && Mine(key, rest[k])
      ensures !rest[k].allowed
    {
      assert rest[k] == acts[i + 1 + k];
    }
    RefusedUntil(o, ls[i], acts[i].time, rest, ls[i + 1..], key, n);
    var tokens := ls[i].buckets[key].tokens;
    if acts[j].time - acts[i].time >= RetryAfter(o, tokens) as real {
      RetryIsEnough(o, tokens, acts[j].time - acts[i].time);
    }
  }

  lemma EmptyValid(o: Options, start: real)
    ensures Valid(o, Limiter(map[], start), start)
  {
  }
}
