/**
 The database connection pool: idle clients and waiting acquirers behind a mutex, and replacements that
 connect in the background with exponential backoff. Each critical section is one atomic step; between
 them clients are in transit on their way to a callback or back to the pool.
 */
module ConnectionPool {
  import opened Bytes
  import opened Collections

  type Client = nat
  type Waiter = nat

  // ---------- Backoff ----------

  datatype Options = Options(maxSize: nat, healthCheck: bool, initialBackoff: nat, maxBackoff: nat)

  /** The delay after a failed attempt that had waited `delay`. */
  function NextDelay(o: Options, delay: nat): nat {
    var next := if o.initialBackoff >= 2 * delay then o.initialBackoff else 2 * delay;
    if next <= o.maxBackoff then next else o.maxBackoff
  }

  /** The k-th retry in closed form. */
  function Backoff(o: Options, k: nat): nat
    requires k >= 1
  {
    var delay := o.initialBackoff * Power2(k - 1);
    if delay <= o.maxBackoff then delay else o.maxBackoff
  }

  lemma FirstRetry(o: Options)
    ensures NextDelay(o, 0) == Backoff(o, 1)
  {
    assert o.initialBackoff * Power2(0) == o.initialBackoff;
  }

  /** Doubling and capping each time is doubling always and capping once. */
  lemma NextRetry(o: Options, k: nat)
    requires k >= 1
    ensures NextDelay(o, Backoff(o, k)) == Backoff(o, k + 1)
  {
    Doubled(o.initialBackoff, Power2(k - 1));
  }

  lemma Doubled(i: nat, p: nat)
    requires p >= 1
    ensures i * (2 * p) == 2 * (i * p) && i * p >= i
  {
    assert i * p == i + i * (p - 1);
  }

  /** A replacement on its way: how long it waits, and which retry of which loss it is. */
  datatype Attempt = Attempt(delay: nat, retry: nat, fromInit: bool)

  function Dropped(): Attempt {
    Attempt(0, 0, false)
  }

  /** A connection that failed while the pool started: its first retry waits the initial backoff, uncapped. */
  function InitFailed(o: Options): Attempt {
    Attempt(o.initialBackoff, 1, true)
  }

  function Retried(o: Options, a: Attempt): Attempt {
    Attempt(NextDelay(o, a.delay), a.retry + 1, a.fromInit)
  }

  ghost predicate OnSchedule(o: Options, a: Attempt) {
    if a.retry == 0 then a.delay == 0 && !a.fromInit
    else if a.fromInit && a.retry == 1 then a.delay == o.initialBackoff
    else a.delay == Backoff(o, a.retry)
  }

  lemma RetriedOnSchedule(o: Options, a: Attempt)
    requires OnSchedule(o, a)
    ensures OnSchedule(o, Retried(o, a))
  {
    if a.retry == 0 {
      FirstRetry(o);
    } else if a.fromInit && a.retry == 1 {
      assert o.initialBackoff * Power2(1) == 2 * o.initialBackoff;
    } else {
      NextRetry(o, a.retry);
    }
  }

  // ---------- The pool ----------

  /**
   `idle`, `waiting` and `reconnecting` are the pool's own fields. The rest says where everything else is:
   connections still starting, replacements about to be counted, attempts under way, clients on their way
   back, clients on their way to a callback, clients checked out, and connections given up for good.
   `arrived` and `served` log acquirers in the order they came and were given a client.
   */
  datatype Pool = Pool(
    idle: seq<Client>, waiting: seq<Waiter>, reconnecting: nat,
    starting: nat, replacing: multiset<Attempt>, attempts: multiset<Attempt>,
    returning: set<Client>, handing: map<Client, Waiter>, out: set<Client>, lost: nat,
    nextClient: Client, arrived: seq<Waiter>, served: seq<Waiter>, ready: seq<bool>, failures: nat)

  function Init(o: Options): Pool {
    Pool([], [], 0, o.maxSize, multiset{}, multiset{}, {}, map[], {}, 0, 0, [], [],
         if o.maxSize == 0 then [true] else [], 0)
  }

  /** Takes clients off the front until one is healthy: what is left, that client, and how many were dropped. */
  function TakeHealthy(idle: seq<Client>, healthy: Client -> bool): (seq<Client>, Option<Client>, nat) {
    if idle == [] then ([], None, 0)
    else if healthy(idle[0]) then (idle[1..], Some(idle[0]), 0)
    else var (rest, found, dropped) := TakeHealthy(idle[1..], healthy); (rest, found, dropped + 1)
  }

  /** A pool without a health check takes every client for usable. */
  function Usable(healthCheck: bool, healthy: Client -> bool): Client -> bool {
    (c: Client) => !healthCheck || healthy(c)
  }

  /** The critical section of acquire. */
  function Acquire(o: Options, p: Pool, w: Waiter, healthy: Client -> bool): Pool {
    var (rest, found, dropped) := TakeHealthy(p.idle, Usable(o.healthCheck, healthy));
    var p1 := p.(idle := rest, arrived := p.arrived + [w],
                 replacing := p.replacing[Dropped() := p.replacing[Dropped()] + dropped]);
    match found
    case None => p1.(waiting := p.waiting + [w])
    case Some(c) => p1.(handing := p.handing[c := w], served := p.served + [w])
  }

  /** release up to its critical section: an unhealthy client is dropped. */
  function Release(o: Options, p: Pool, c: Client, healthy: bool): Pool {
    if o.healthCheck && !healthy then p.(replacing := p.replacing + multiset{Dropped()})
    else p.(returning := p.returning + {c})
  }

  /** The critical section of release: the first waiter gets the client, or it becomes idle. */
  function Return(p: Pool, c: Client): Pool {
    if p.waiting != [] then
      p.(returning := p.returning - {c}, handing := p.handing[c := p.waiting[0]],
         served := p.served + [p.waiting[0]], waiting := p.waiting[1..])
    else p.(returning := p.returning - {c}, idle := p.idle + [c])
  }

  datatype Choice =
    | Acquires(w: Waiter, usable: Client -> bool)
    | CallsBack(c: Client)                             // the acquirer's callback runs
    | Releases(c: Client, healthy: bool)               // its user gives a client back
    | Returns(c: Client)
    | Replaces(a: Attempt)                             // replace takes the mutex
    | Connects(a: Attempt, success: bool, healthy: bool)
    | Starts(success: bool, healthy: bool)             // one of init's connections completes

  /** One atomic step; a choice that is not possible now does nothing. */
  function Next(o: Options, p: Pool, c: Choice): Pool {
    match c
    case Acquires(w, usable) => Acquire(o, p, w, usable)
    case CallsBack(k) => if k in p.handing then p.(handing := p.handing - {k}, out := p.out + {k}) else p
    case Releases(k, healthy) => if k in p.out then Release(o, p.(out := p.out - {k}), k, healthy) else p
    case Returns(k) => if k in p.returning then Return(p, k) else p
    case Replaces(a) =>
      if a in p.replacing then
        p.(replacing := p.replacing - multiset{a}, attempts := p.attempts + multiset{a},
           reconnecting := p.reconnecting + 1)
      else p
    case Connects(a, success, healthy) =>
      if a in p.attempts && p.reconnecting > 0 then
        var p1 := p.(attempts := p.attempts - multiset{a}, reconnecting := p.reconnecting - 1);
        if success then Release(o, p1.(nextClient := p.nextClient + 1), p.nextClient, healthy)
        else p1.(replacing := p.replacing + multiset{Retried(o, a)})
      else p
    case Starts(success, healthy) =>
      if p.starting > 0 then
        var failures := if success then p.failures else p.failures + 1;
        var p1 := p.(starting := p.starting - 1, failures := failures,
                     ready := if p.starting == 1 then p.ready + [failures == 0] else p.ready);
        if success then Release(o, p1.(nextClient := p.nextClient + 1), p.nextClient, healthy)
        else if o.healthCheck then p1.(replacing := p.replacing + multiset{InitFailed(o)})
        else p1.(lost := p.lost + 1)
      else p
  }

  function Execute(o: Options, p: Pool, choices: seq<Choice>): Pool
    decreases |choices|
  {
    if choices == [] then p else Execute(o, Next(o, p, choices[0]), choices[1..])
  }

  // ---------- What every step keeps ----------

  function InTransit(p: Pool): nat {
    |p.replacing| + |p.returning| + |p.handing|
  }

  /** Every one of the pool's connections is somewhere. */
  ghost predicate Conserved(o: Options, p: Pool) {
    && |p.idle| + |p.out| + p.reconnecting + InTransit(p) + p.starting + p.lost == o.maxSize
    && p.reconnecting == |p.attempts|
    && (o.healthCheck ==> p.lost == 0)
  }

  /** Nobody waits while a client is idle, and clients are given out in order of arrival. */
  ghost predicate Fair(p: Pool) {
    && (p.idle == [] || p.waiting == [])
    && p.served + p.waiting == p.arrived
  }

  /** No client is in two places. */
  ghost predicate Apart(p: Pool) {
    && (forall i, j :: 0 <= i < j < |p.idle| ==> p.idle[i] != p.idle[j])
    && (forall c :: c in p.idle ==> c !in p.returning && c !in p.handing && c !in p.out)
    && p.returning !! p.handing.Keys && p.returning !! p.out && p.handing.Keys !! p.out
    && (forall c :: c in p.idle || c in p.returning || c in p.handing || c in p.out ==> c < p.nextClient)
  }

  ghost predicate AllOnSchedule(o: Options, s: multiset<Attempt>) {
    forall a :: a in s ==> OnSchedule(o, a)
  }

  ghost predicate Scheduled(o: Options, p: Pool) {
    AllOnSchedule(o, p.replacing) && AllOnSchedule(o, p.attempts)
  }

  /** The start is reported once, when the last connection has completed, and truthfully. */
  ghost predicate Reported(o: Options, p: Pool) {
    && p.ready == (if p.starting == 0 then [p.failures == 0] else [])
  }

  lemma {:induction false} TakeHealthyParts(idle: seq<Client>, healthy: Client -> bool)
    ensures var (rest, found, dropped) := TakeHealthy(idle, healthy);
            && |idle| == |rest| + dropped + (if found.Some? then 1 else 0)
            && rest == idle[|idle| - |rest|..]
            && (found.Some? ==> healthy(found.value) && dropped < |idle| && found.value == idle[dropped])
            && (found.None? ==> rest == [])
            && (forall i :: 0 <= i < dropped ==> !healthy(idle[i]))
  {
    if idle != [] && !healthy(idle[0]) {
      TakeHealthyParts(idle[1..], healthy);
      var (rest, found, dropped) := TakeHealthy(idle, healthy);
      forall i | 0 <= i < dropped
        ensures !healthy(idle[i])
      {
        if i > 0 {
          assert idle[i] == idle[1..][i - 1];
        }
      }
    }
  }

  lemma AcquireConserves(o: Options, p: Pool, w: Waiter, healthy: Client -> bool)
    requires Conserved(o, p) && Apart(p)
    ensures Conserved(o, Acquire(o, p, w, healthy))
  {
    hide TakeHealthy, Usable, Dropped;
    var check := Usable(o.healthCheck, healthy);
    TakeHealthyParts(p.idle, check);
    var (rest, found, dropped) := TakeHealthy(p.idle, check);
    AddMany(p.replacing, Dropped(), dropped);
    if found.Some? {
      assert found.value in p.idle;
      assert p.handing[found.value := w].Keys == p.handing.Keys + {found.value};
    }
  }

  lemma AddMany(s: multiset<Attempt>, a: Attempt, n: nat)
    ensures |s[a := s[a] + n]| == |s| + n
  {
  }

  lemma ReleaseConserves(o: Options, p: Pool, c: Client, healthy: bool)
    requires c !in p.returning
    ensures var p' := Release(o, p, c, healthy);
            && |p'.replacing| + |p'.returning| == |p.replacing| + |p.returning| + 1
            && p' == p.(replacing := p'.replacing, returning := p'.returning)
  {
  }

  lemma ReturnConserves(o: Options, p: Pool, c: Client)
    requires Conserved(o, p) && Apart(p) && c in p.returning
    ensures Conserved(o, Return(p, c))
  {
    if p.waiting != [] {
      assert p.handing[c := p.waiting[0]].Keys == p.handing.Keys + {c};
    }
  }

  lemma CallBackConserves(o: Options, p: Pool, k: Client)
    requires Conserved(o, p) && Apart(p)
    ensures Conserved(o, Next(o, p, CallsBack(k)))
  {
    if k in p.handing {
      assert (p.handing - {k}).Keys == p.handing.Keys - {k};
    }
  }

  lemma UserReleaseConserves(o: Options, p: Pool, k: Client, healthy: bool)
    requires Conserved(o, p) && Apart(p)
    ensures Conserved(o, Next(o, p, Releases(k, healthy)))
  {
    hide Release;
    if k in p.out {
      ReleaseConserves(o, p.(out := p.out - {k}), k, healthy);
    }
  }

  lemma ReplaceConserves(o: Options, p: Pool, a: Attempt)
    requires Conserved(o, p)
    ensures Conserved(o, Next(o, p, Replaces(a)))
  {
  }

  lemma KeepsConserved(o: Options, p: Pool, c: Choice)
    requires Conserved(o, p) && Apart(p)
    ensures Conserved(o, Next(o, p, c))
  {
    hide Acquire, Release, Return, Conserved, Apart, Retried, InitFailed, Dropped;
    match c
    case Acquires(w, usable) => AcquireConserves(o, p, w, usable);
    case CallsBack(k) => CallBackConserves(o, p, k);
    case Releases(k, healthy) => UserReleaseConserves(o, p, k, healthy);
    case Returns(k) =>
      if k in p.returning {
        ReturnConserves(o, p, k);
      }
    case Replaces(a) => ReplaceConserves(o, p, a);
    case Connects(a, success, healthy) => ConnectConserves(o, p, a, success, healthy);
    case Starts(success, healthy) => StartConserves(o, p, success, healthy);
  }

  lemma ConnectConserves(o: Options, p: Pool, a: Attempt, success: bool, healthy: bool)
    requires Conserved(o, p) && Apart(p)
    ensures Conserved(o, Next(o, p, Connects(a, success, healthy)))
  {
  }

  lemma StartConserves(o: Options, p: Pool, success: bool, healthy: bool)
    requires Conserved(o, p) && Apart(p)
    ensures Conserved(o, Next(o, p, Starts(success, healthy)))
  {
  }

  lemma AcquireFair(o: Options, p: Pool, w: Waiter, healthy: Client -> bool)
    requires Fair(p)
    ensures Fair(Acquire(o, p, w, healthy))
  {
    hide Usable, Dropped;
    TakeHealthyParts(p.idle, Usable(o.healthCheck, healthy));
    assert p.served + p.waiting + [w] == p.served + (p.waiting + [w]);
  }

  lemma ReturnFair(p: Pool, c: Client)
    requires Fair(p)
    ensures Fair(Return(p, c))
  {
    if p.waiting != [] {
      assert p.served + p.waiting == p.served + [p.waiting[0]] + p.waiting[1..];
    }
  }

  lemma KeepsFair(o: Options, p: Pool, c: Choice)
    requires Fair(p)
    ensures Fair(Next(o, p, c))
  {
    hide Acquire, Return;
    if c.Acquires? {
      AcquireFair(o, p, c.w, c.usable);
    } else if c.Returns? && c.c in p.returning {
      ReturnFair(p, c.c);
    }
  }

  lemma AcquireApart(o: Options, p: Pool, w: Waiter, healthy: Client -> bool)
    requires Apart(p)
    ensures Apart(Acquire(o, p, w, healthy))
  {
    var check := Usable(o.healthCheck, healthy);
    TakeHealthyParts(p.idle, check);
    var (rest, found, dropped) := TakeHealthy(p.idle, check);
    var k := |p.idle| - |rest|;
    assert forall i :: 0 <= i < |rest| ==> rest[i] == p.idle[k + i];
    assert forall c :: c in rest ==> c in p.idle;
    if found.Some? {
      assert found.value == p.idle[dropped] && dropped < k;
      assert found.value !in rest;
    }
  }

  lemma ReturnApart(p: Pool, c: Client)
    requires Apart(p) && c in p.returning
    ensures Apart(Return(p, c))
  {
  }

  lemma KeepsApart(o: Options, p: Pool, c: Choice)
    requires Apart(p)
    ensures Apart(Next(o, p, c))
  {
    hide Next, Apart;
    match c
    case Acquires(w, usable) => AcquiresApart(o, p, w, usable);
    case Returns(k) => ReturnsApart(o, p, k);
    case CallsBack(k) => CallsBackApart(o, p, k);
    case Releases(k, healthy) => ReleasesApart(o, p, k, healthy);
    case Replaces(a) => ReplacesApart(o, p, a);
    case Connects(a, success, healthy) => ConnectsApart(o, p, a, success, healthy);
    case Starts(success, healthy) => StartsApart(o, p, success, healthy);
  }

  lemma AcquiresApart(o: Options, p: Pool, w: Waiter, usable: Client -> bool)
    requires Apart(p)
    ensures Apart(Next(o, p, Acquires(w, usable)))
  {
    hide Acquire, Apart;
    AcquireApart(o, p, w, usable);
  }

  lemma ReturnsApart(o: Options, p: Pool, k: Client)
    requires Apart(p)
    ensures Apart(Next(o, p, Returns(k)))
  {
    hide Return, Apart;
    if k in p.returning {
      ReturnApart(p, k);
    }
  }

  lemma CallsBackApart(o: Options, p: Pool, k: Client)
    requires Apart(p)
    ensures Apart(Next(o, p, CallsBack(k)))
  {
  }

  lemma ReleasesApart(o: Options, p: Pool, k: Client, healthy: bool)
    requires Apart(p)
    ensures Apart(Next(o, p, Releases(k, healthy)))
  {
    hide Release;
    if k in p.out {
      ReleaseApart(o, p.(out := p.out - {k}), k, healthy);
    }
  }

  lemma ReplacesApart(o: Options, p: Pool, a: Attempt)
    requires Apart(p)
    ensures Apart(Next(o, p, Replaces(a)))
  {
  }

  lemma ConnectsApart(o: Options, p: Pool, a: Attempt, success: bool, healthy: bool)
    requires Apart(p)
    ensures Apart(Next(o, p, Connects(a, success, healthy)))
  {
    hide Release;
    if a in p.attempts && p.reconnecting > 0 && success {
      var p1 := p.(attempts := p.attempts - multiset{a}, reconnecting := p.reconnecting - 1);
      ReleaseApart(o, p1.(nextClient := p.nextClient + 1), p.nextClient, healthy);
    }
  }

  lemma StartsApart(o: Options, p: Pool, success: bool, healthy: bool)
    requires Apart(p)
    ensures Apart(Next(o, p, Starts(success, healthy)))
  {
    hide Release;
    if p.starting > 0 && success {
      var p1 := p.(starting := p.starting - 1, ready := if p.starting == 1 then p.ready + [p.failures == 0] else p.ready);
      ReleaseApart(o, p1.(nextClient := p.nextClient + 1), p.nextClient, healthy);
    }
  }

  lemma ReleaseApart(o: Options, p: Pool, c: Client, healthy: bool)
    requires Apart(p) && c < p.nextClient && c !in p.idle && c !in p.handing && c !in p.out
    ensures Apart(Release(o, p, c, healthy))
  {
  }

  lemma AddOnSchedule(o: Options, s: multiset<Attempt>, a: Attempt)
    requires AllOnSchedule(o, s) && OnSchedule(o, a)
    ensures AllOnSchedule(o, s + multiset{a})
  {
  }

  lemma AddDroppedOnSchedule(o: Options, s: multiset<Attempt>, n: nat)
    requires AllOnSchedule(o, s)
    ensures AllOnSchedule(o, s[Dropped() := n])
  {
    forall a | a in s[Dropped() := n]
      ensures OnSchedule(o, a)
    {
      if a != Dropped() {
        assert a in s;
      }
    }
  }

  lemma TakeOnSchedule(o: Options, s: multiset<Attempt>, a: Attempt)
    requires AllOnSchedule(o, s)
    ensures AllOnSchedule(o, s - multiset{a})
    ensures a in s ==> OnSchedule(o, a)
  {
    assert forall b :: b in s - multiset{a} ==> b in s;
  }

  lemma KeepsScheduled(o: Options, p: Pool, c: Choice)
    requires Scheduled(o, p)
    ensures Scheduled(o, Next(o, p, c))
  {
    hide AllOnSchedule, TakeHealthy, Retried, Backoff, Usable;
    AddOnSchedule(o, p.replacing, Dropped());
    match c
    case Acquires(w, usable) =>
      var (rest, found, dropped) := TakeHealthy(p.idle, Usable(o.healthCheck, usable));
      AddDroppedOnSchedule(o, p.replacing, p.replacing[Dropped()] + dropped);
    case Replaces(a) =>
      TakeOnSchedule(o, p.replacing, a);
      if a in p.replacing {
        AddOnSchedule(o, p.attempts, a);
      }
    case Connects(a, success, healthy) =>
      TakeOnSchedule(o, p.attempts, a);
      if a in p.attempts {
        RetriedOnSchedule(o, a);
        AddOnSchedule(o, p.replacing, Retried(o, a));
      }
    case Starts(success, healthy) => AddOnSchedule(o, p.replacing, InitFailed(o));
    case CallsBack(_) =>
    case Releases(_, _) =>
    case Returns(_) =>
  }

  lemma KeepsReported(o: Options, p: Pool, c: Choice)
    requires Reported(o, p)
    ensures Reported(o, Next(o, p, c))
  {
  }

  ghost predicate Inv(o: Options, p: Pool) {
    Conserved(o, p) && Fair(p) && Apart(p) && Scheduled(o, p) && Reported(o, p)
  }

  lemma StepKeeps(o: Options, p: Pool, c: Choice)
    requires Inv(o, p)
    ensures Inv(o, Next(o, p, c))
  {
    hide Next, Conserved, Fair, Apart, Scheduled, Reported;
    KeepsConserved(o, p, c);
    KeepsFair(o, p, c);
    KeepsApart(o, p, c);
    KeepsScheduled(o, p, c);
    KeepsReported(o, p, c);
  }

  lemma {:induction false} ExecuteKeeps(o: Options, p: Pool, choices: seq<Choice>)
    requires Inv(o, p)
    ensures Inv(o, Execute(o, p, choices))
    decreases |choices|
  {
    hide Next, Inv;
    if choices != [] {
      StepKeeps(o, p, choices[0]);
      ExecuteKeeps(o, Next(o, p, choices[0]), choices[1..]);
    }
  }

  lemma Reachable(o: Options, choices: seq<Choice>)
    ensures Inv(o, Execute(o, Init(o), choices))
  {
    ExecuteKeeps(o, Init(o), choices);
  }

  /** Conservation: with a health check, once started, no connection is ever lost or made twice. */
  lemma NoConnectionLost(o: Options, choices: seq<Choice>)
    ensures var p := Execute(o, Init(o), choices);
            && |p.idle| + |p.out| + p.reconnecting + InTransit(p) + p.starting + p.lost == o.maxSize
            && (o.healthCheck ==> p.lost == 0)
            && Apart(p)
  {
    Reachable(o, choices);
  }

  /** The start is reported at most once in every run: when the last connection has completed, and truthfully. */
  lemma ReadyOnce(o: Options, choices: seq<Choice>)
    ensures var p := Execute(o, Init(o), choices);
            && |p.ready| <= 1 && (p.ready != [] <==> p.starting == 0)
            && (p.ready != [] ==> (p.ready[0] <==> p.failures == 0))
  {
    Reachable(o, choices);
  }

  /** Acquirers get clients in the order they came, and nobody waits while a client is idle. */
  lemma FirstComeFirstServed(o: Options, choices: seq<Choice>)
    ensures var p := Execute(o, Init(o), choices);
            p.served <= p.arrived && p.waiting == p.arrived[|p.served|..] && (p.waiting != [] ==> p.idle == [])
  {
    Reachable(o, choices);
  }

  /** The k-th retry after a drop waits min(maxBackoff, initialBackoff * 2^(k - 1)), in every run. */
  lemma BackoffDoubles(o: Options, choices: seq<Choice>, a: Attempt)
    requires var p := Execute(o, Init(o), choices); a in p.replacing || a in p.attempts
    ensures a.retry == 0 ==> a.delay == 0
    ensures a.retry >= 1 && !(a.fromInit && a.retry == 1) ==> a.delay == Backoff(o, a.retry)
    ensures a.fromInit && a.retry == 1 ==> a.delay == o.initialBackoff
  {
    Reachable(o, choices);
  }

  /** The first retry of a connection that failed at the start is capped exactly when the settings are in order. */
  lemma InitRetryUncapped(o: Options)
    ensures InitFailed(o).delay == Backoff(o, 1) <==> o.initialBackoff <= o.maxBackoff
  {
    FirstRetry(o);
  }

  // ---------- What becomes of a caller ----------

  /** The callers of acquire in a schedule, in the order in which they take the mutex. */
  function Callers(choices: seq<Choice>): seq<Waiter> {
    if choices == [] then []
    else (if choices[0].Acquires? then [choices[0].w] else []) + Callers(choices[1..])
  }

  lemma NextArrives(o: Options, p: Pool, c: Choice)
    ensures Next(o, p, c).arrived == p.arrived + if c.Acquires? then [c.w] else []
  {
    hide TakeHealthy, Usable, Dropped;
    assert p.arrived + [] == p.arrived;
  }

  lemma {:induction false} CallersArrive(o: Options, p: Pool, choices: seq<Choice>)
    ensures Execute(o, p, choices).arrived == p.arrived + Callers(choices)
    decreases |choices|
  {
    hide Next;
    if choices == [] {
      assert p.arrived + [] == p.arrived;
    } else {
      NextArrives(o, p, choices[0]);
      CallersArrive(o, Next(o, p, choices[0]), choices[1..]);
      var first: seq<Waiter> := if choices[0].Acquires? then [choices[0].w] else [];
      assert (p.arrived + first) + Callers(choices[1..]) == p.arrived + (first + Callers(choices[1..]));
    }
  }

  /** Every caller of acquire, in order, has been given a client or waits; none is forgotten or served twice. */
  lemma NoCallerForgotten(o: Options, choices: seq<Choice>)
    ensures var p := Execute(o, Init(o), choices); Callers(choices) == p.served + p.waiting
  {
    Reachable(o, choices);
    CallersArrive(o, Init(o), choices);
    assert [] + Callers(choices) == Callers(choices);
  }

  /** A caller for whom there is a usable client gets that client: its callback is called with it, and then it has it. */
  lemma CallerIsServed(o: Options, p: Pool, w: Waiter, usable: Client -> bool)
    ensures var (rest, found, dropped) := TakeHealthy(p.idle, Usable(o.healthCheck, usable));
            var p' := Next(o, p, Acquires(w, usable));
            found.Some? ==>
              && p'.handing == p.handing[found.value := w] && p'.served == p.served + [w]
              && found.value in Next(o, p', CallsBack(found.value)).out
              && found.value !in Next(o, p', CallsBack(found.value)).handing
  {
    hide TakeHealthy, Usable, Dropped;
  }

  // ---------- What becomes of a released client ----------

  /** A client that once was and is nowhere any more. */
  ghost predicate Gone(p: Pool, c: Client) {
    c < p.nextClient && c !in p.idle && c !in p.returning && c !in p.handing && c !in p.out
  }

  lemma AcquireStaysGone(o: Options, p: Pool, w: Waiter, healthy: Client -> bool, c: Client)
    requires Gone(p, c)
    ensures Gone(Acquire(o, p, w, healthy), c)
  {
    hide TakeHealthy, Usable, Dropped;
    var check := Usable(o.healthCheck, healthy);
    TakeHealthyParts(p.idle, check);
    var (rest, found, dropped) := TakeHealthy(p.idle, check);
    assert forall i :: 0 <= i < |rest| ==> rest[i] == p.idle[|p.idle| - |rest| + i];
  }

  lemma StaysGone(o: Options, p: Pool, choice: Choice, c: Client)
    requires Gone(p, c)
    ensures Gone(Next(o, p, choice), c)
  {
    hide Acquire;
    if choice.Acquires? {
      AcquireStaysGone(o, p, choice.w, choice.usable, c);
    }
  }

  lemma {:induction false} GoneForGood(o: Options, p: Pool, more: seq<Choice>, c: Client)
    requires Gone(p, c)
    ensures Gone(Execute(o, p, more), c)
    decreases |more|
  {
    hide Next, Gone;
    if more != [] {
      StaysGone(o, p, more[0], c);
      GoneForGood(o, Next(o, p, more[0]), more[1..], c);
    }
  }

  /** With a health check, a client released unhealthy is replaced at once and never handed out again. */
  lemma UnhealthyIsDropped(o: Options, choices: seq<Choice>, c: Client, more: seq<Choice>)
    requires var p := Execute(o, Init(o), choices); c in p.out && o.healthCheck
    ensures var p := Execute(o, Init(o), choices);
            var p' := Next(o, p, Releases(c, false));
            p'.replacing == p.replacing + multiset{Attempt(0, 0, false)} && Gone(Execute(o, p', more), c)
  {
    Reachable(o, choices);
    var p := Execute(o, Init(o), choices);
    GoneForGood(o, Next(o, p, Releases(c, false)), more, c);
  }

  /** A healthy client, or any without a health check, goes back: to the longest waiter, or to the end of the idle queue. */
  lemma HealthyComesBack(o: Options, p: Pool, c: Client, healthy: bool)
    requires c in p.out && (healthy || !o.healthCheck)
    ensures var p' := Next(o, Next(o, p, Releases(c, healthy)), Returns(c));
            if p.waiting != [] then c in p'.handing && p'.handing[c] == p.waiting[0] && p'.waiting == p.waiting[1..]
            else p'.idle == p.idle + [c]
  {
  }

  // ---------- The loop of acquire ----------

  method PopHealthy(idle: seq<Client>, healthCheck: bool, healthy: Client -> bool)
    returns (rest: seq<Client>, found: Option<Client>, dropped: nat)
    ensures (rest, found, dropped) == TakeHealthy(idle, Usable(healthCheck, healthy))
    ensures dropped <= |idle| && (forall i :: 0 <= i < dropped ==> !healthy(idle[i])) && (!healthCheck ==> dropped == 0)
    ensures found.Some? ==>
              && dropped < |idle| && found.value == idle[dropped] && rest == idle[dropped + 1..]
              && (healthCheck ==> healthy(found.value))
    ensures found.None? ==> dropped == |idle| && rest == []
  {
    ghost var check := Usable(healthCheck, healthy);
    rest, found, dropped := idle, None, 0;
    while rest != []
      invariant found.None?
      invariant var (r, f, d) := TakeHealthy(rest, check); TakeHealthy(idle, check) == (r, f, dropped + d)
      invariant dropped <= |idle| && rest == idle[dropped..] && (!healthCheck ==> dropped == 0)
      invariant forall i :: 0 <= i < dropped ==> !healthy(idle[i])
      decreases |rest|
    {
      var candidate := rest[0];
      rest := rest[1..];
      if !healthCheck || healthy(candidate) {
        found := Some(candidate);
        break;
      }
      dropped := dropped + 1;
    }
  }

  // ---------- The pool object ----------

  /**
   The pool with the source's own fields, and the counters its start shares. Each method is what one thread
   does while it holds the mutex; `pool` is the whole system it takes part in, which it moves by one step.
   */
  class ConnectionPool {
    const o: Options
    var idle: seq<Client>
    var waiting: seq<Waiter>
    var reconnecting: nat
    var succeeded: nat
    var failed: nat
    ghost var pool: Pool

    ghost predicate Valid()
      reads this
    {
      && idle == pool.idle && waiting == pool.waiting && reconnecting == pool.reconnecting
      && succeeded + failed + pool.starting == o.maxSize && failed == pool.failures
      && Inv(o, pool)
    }

    constructor (o: Options)
      ensures Valid() && this.o == o && pool == Init(o)
    {
      this.o := o;
      idle, waiting, reconnecting, succeeded, failed := [], [], 0, 0, 0;
      pool := Init(o);
    }

    /**
     acquire: hands out the first usable idle client, dropping those before it, or queues the caller. Nobody
     who waits is overtaken.
     */
    method AcquireLocked(w: Waiter, healthy: Client -> bool) returns (client: Option<Client>, dropped: nat)
      requires Valid()
      modifies this`idle, this`waiting, this`pool
      ensures Valid() && pool == Next(o, old(pool), Acquires(w, healthy))
      ensures dropped <= |old(idle)| && forall i :: 0 <= i < dropped ==> !healthy(old(idle)[i])
      ensures !o.healthCheck ==> dropped == 0
      ensures client.Some? ==>
                && old(waiting) == [] == waiting && dropped < |old(idle)| && client.value == old(idle)[dropped]
                && idle == old(idle)[dropped + 1..] && (o.healthCheck ==> healthy(client.value))
      ensures client.None? ==> dropped == |old(idle)| && idle == [] && waiting == old(waiting) + [w]
    {
      hide Inv, TakeHealthy, Usable, Next;
      StepKeeps(o, pool, Acquires(w, healthy));
      IdleOrWaiting(o, pool);
      AcquireFields(o, pool, w, healthy);
      pool := Next(o, pool, Acquires(w, healthy));
      idle, client, dropped := PopHealthy(idle, o.healthCheck, healthy);
      if client.None? {
        waiting := waiting + [w];
      }
    }

    /** What happens outside the mutex, callbacks and health checks of released clients, leaves the fields alone. */
    ghost method OutsideLock(c: Choice)
      requires Valid() && (c.CallsBack? || c.Releases?)
      modifies this`pool
      ensures Valid() && pool == Next(o, old(pool), c)
    {
      hide Inv;
      StepKeeps(o, pool, c);
      pool := Next(o, pool, c);
    }

    /** release: the client goes to whoever waited longest, or becomes idle if nobody waits. */
    method ReleaseLocked(c: Client) returns (next: Option<Waiter>)
      requires Valid() && c in pool.returning
      modifies this`idle, this`waiting, this`pool
      ensures Valid() && pool == Next(o, old(pool), Returns(c))
      ensures next.None? <==> old(waiting) == []
      ensures next.None? ==> idle == old(idle) + [c] && waiting == []
      ensures next.Some? ==> [next.value] + waiting == old(waiting) && idle == old(idle) == []
    {
      hide Inv;
      StepKeeps(o, pool, Returns(c));
      IdleOrWaiting(o, pool);
      pool := Next(o, pool, Returns(c));
      next := None;
      if waiting != [] {
        next := Some(waiting[0]);
        waiting := waiting[1..];
      } else {
        idle := idle + [c];
      }
    }

    /** replace: counts a replacement before it connects; there are never more of them than connections. */
    method ReplaceLocked(ghost a: Attempt)
      requires Valid() && a in pool.replacing
      modifies this`reconnecting, this`pool
      ensures Valid() && pool == Next(o, old(pool), Replaces(a))
      ensures old(reconnecting) < reconnecting <= o.maxSize
    {
      hide Inv;
      StepKeeps(o, pool, Replaces(a));
      pool := Next(o, pool, Replaces(a));
      reconnecting := reconnecting + 1;
      NoMoreThanAll(o, pool);
    }

    /**
     An attempt is over. The count of those under way never goes below zero, and after the k-th failure in a
     row the next attempt waits the k-th backoff.
     */
    method AttemptDone(ghost a: Attempt, delay: nat, success: bool, healthy: bool) returns (retryIn: Option<nat>)
      requires Valid() && a in pool.attempts && a.delay == delay
      modifies this`reconnecting, this`pool
      ensures Valid() && pool == Next(o, old(pool), Connects(a, success, healthy))
      ensures retryIn == if success then None else Some(Backoff(o, a.retry + 1))
    {
      hide Inv, Backoff;
      StepKeeps(o, pool, Connects(a, success, healthy));
      UnderWay(o, pool, a);
      pool := Next(o, pool, Connects(a, success, healthy));
      reconnecting := reconnecting - 1;
      if success {
        return None;
      }
      var next := if o.initialBackoff >= 2 * delay then o.initialBackoff else 2 * delay;
      return Some(if next <= o.maxBackoff then next else o.maxBackoff);
    }

    /** One of init's connections completes; the last one reports, once, whether all of them succeeded. */
    method StartedLocked(success: bool, healthy: bool) returns (allDone: bool, allOk: bool)
      requires Valid() && pool.starting > 0
      modifies this`succeeded, this`failed, this`pool
      ensures Valid() && pool == Next(o, old(pool), Starts(success, healthy))
      ensures pool.ready == if allDone then [allOk] else []
      ensures allDone ==> (allOk <==> succeeded == o.maxSize)
    {
      hide Inv, Release, InitFailed;
      StepKeeps(o, pool, Starts(success, healthy));
      pool := Next(o, pool, Starts(success, healthy));
      if success {
        succeeded := succeeded + 1;
      } else {
        failed := failed + 1;
      }
      StartReported(o, pool);
      ReleaseKeepsStart(o, old(pool), success, healthy);
      allDone := succeeded + failed == o.maxSize;
      allOk := failed == 0;
    }
  }

  lemma AcquireFields(o: Options, p: Pool, w: Waiter, healthy: Client -> bool)
    ensures var (rest, found, _) := TakeHealthy(p.idle, Usable(o.healthCheck, healthy));
            var p' := Next(o, p, Acquires(w, healthy));
            && p'.idle == rest && p'.waiting == (if found.None? then p.waiting + [w] else p.waiting)
            && p'.reconnecting == p.reconnecting && p'.starting == p.starting && p'.failures == p.failures
  {
    hide TakeHealthy, Usable, Dropped;
  }

  lemma IdleOrWaiting(o: Options, p: Pool)
    requires Inv(o, p)
    ensures p.idle == [] || p.waiting == []
  {
  }

  lemma NoMoreThanAll(o: Options, p: Pool)
    requires Inv(o, p)
    ensures p.reconnecting <= o.maxSize
  {
  }

  /** An attempt under way is counted, and was made on schedule. */
  lemma UnderWay(o: Options, p: Pool, a: Attempt)
    requires Inv(o, p) && a in p.attempts
    ensures p.reconnecting > 0 && NextDelay(o, a.delay) == Backoff(o, a.retry + 1)
  {
    RetriedOnSchedule(o, a);
  }

  lemma StartReported(o: Options, p: Pool)
    requires Inv(o, p)
    ensures p.ready == if p.starting == 0 then [p.failures == 0] else []
  {
  }

  lemma ReleaseKeepsStart(o: Options, p: Pool, success: bool, healthy: bool)
    requires p.starting > 0
    ensures var p' := Next(o, p, Starts(success, healthy));
            && p'.starting == p.starting - 1 && p'.failures == p.failures + (if success then 0 else 1)
            && p'.idle == p.idle && p'.waiting == p.waiting && p'.reconnecting == p.reconnecting
  {
  }
}
