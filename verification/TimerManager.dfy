/**
 Connection timers: a priority queue with lazy deletion against a plain map of live timers. The queue is a
 multiset whose top is any entry of least deadline; points in time are nanoseconds, delays milliseconds.
 */
module TimerManager {
  import opened Collections

  datatype TimerEvent = TimerEvent(expiration: int, timerId: nat, fd: int)

  datatype LiveTimer = LiveTimer(fd: int, expiration: int)

  type Live = map<nat, LiveTimer>

  const COMPACTION_SLACK := 64
  const NANOSECONDS := 1_000_000            // in a millisecond
  const INT_RANGE := 0x1_0000_0000          // of a 32-bit int

  // ---------- Queue entries of live timers ----------

  function Entry(id: nat, t: LiveTimer): TimerEvent {
    TimerEvent(t.expiration, id, t.fd)
  }

  ghost function Entries(live: Live): multiset<TimerEvent> {
    multiset(set id | id in live :: Entry(id, live[id]))
  }

  lemma EntriesHas(live: Live, e: TimerEvent)
    ensures Entries(live)[e] == if e.timerId in live && e == Entry(e.timerId, live[e.timerId]) then 1 else 0
  {
    var s := set id | id in live :: Entry(id, live[id]);
    if e.timerId in live && e == Entry(e.timerId, live[e.timerId]) {
      assert e in s;
    }
  }

  lemma EntriesAdd(live: Live, id: nat, t: LiveTimer)
    requires id !in live
    ensures Entries(live[id := t]) == Entries(live) + multiset{Entry(id, t)}
  {
    forall e
      ensures Entries(live[id := t])[e] == (Entries(live) + multiset{Entry(id, t)})[e]
    {
      EntriesHas(live, e);
      EntriesHas(live[id := t], e);
    }
  }

  lemma EntriesRemove(live: Live, id: nat)
    requires id in live
    ensures Entries(live) == Entries(live - {id}) + multiset{Entry(id, live[id])}
  {
    var rest := live - {id};
    EntriesAdd(rest, id, live[id]);
    assert rest[id := live[id]] == live;
  }

  lemma {:induction false} EntriesSize(live: Live)
    ensures |Entries(live)| == |live|
    decreases |live|
  {
    if live == map[] {
      assert Entries(live) == multiset{};
    } else {
      var id :| id in live;
      DropKey(live, id);
      EntriesSize(live - {id});
      EntriesRemove(live, id);
    }
  }

  /** e is at the front of the queue: nothing in it is due earlier. */
  predicate IsTop(timers: multiset<TimerEvent>, e: TimerEvent) {
    e in timers && forall f :: f in timers ==> e.expiration <= f.expiration
  }

  lemma {:induction false} TopExists(timers: multiset<TimerEvent>)
    requires timers != multiset{}
    ensures exists e :: IsTop(timers, e)
    decreases |timers|
  {
    var e :| e in timers;
    var rest := timers - multiset{e};
    if rest == multiset{} {
      assert timers == multiset{e};
      assert IsTop(timers, e);
    } else {
      TopExists(rest);
      var f :| IsTop(rest, f);
      assert forall g :: g in timers ==> g == e || g in rest;
      assert IsTop(timers, if e.expiration <= f.expiration then e else f);
    }
  }

  // ---------- What the plain map promises ----------

  /** `id` is a live timer that is due no later than any other. */
  ghost predicate IsNext(live: Live, id: nat) {
    id in live && forall k :: k in live ==> live[id].expiration <= live[k].expiration
  }

  /** The live timers that are due, each once, in deadline order. */
  ghost predicate DueInOrder(live: Live, now: int, ids: seq<nat>) {
    && (forall i :: 0 <= i < |ids| ==> ids[i] in live && live[ids[i]].expiration <= now)
    && (forall id :: id in live && live[id].expiration <= now ==> id in ids)
    && (forall i, j :: 0 <= i < j < |ids| ==>
          ids[i] != ids[j] && ids[i] in live && ids[j] in live && live[ids[i]].expiration <= live[ids[j]].expiration)
  }

  lemma {:induction false} SameDue(live: Live, now: int, ids: seq<nat>, others: seq<nat>)
    requires DueInOrder(live, now, ids) && DueInOrder(live, now, others)
    ensures multiset(ids) == multiset(others) && |ids| == |others|
  {
    forall id
      ensures multiset(ids)[id] == multiset(others)[id]
    {
      OccursOnce(ids, id);
      OccursOnce(others, id);
      assert id in ids <==> id in live && live[id].expiration <= now;
      assert id in others <==> id in live && live[id].expiration <= now;
    }
    assert |multiset(ids)| == |ids| && |multiset(others)| == |others|;
  }

  /** Any two such orders report the same timers and fire at the same deadlines: the order is unique up to ties. */
  lemma DueIsUnique(live: Live, now: int, ids: seq<nat>, others: seq<nat>)
    requires DueInOrder(live, now, ids) && DueInOrder(live, now, others)
    ensures multiset(ids) == multiset(others) && |ids| == |others|
    ensures forall i :: 0 <= i < |ids| ==>
              ids[i] in live && others[i] in live && live[ids[i]].expiration == live[others[i]].expiration
  {
    hide DueInOrder;
    SameDue(live, now, ids, others);
    forall i | 0 <= i < |ids|
      ensures ids[i] in live && others[i] in live && live[ids[i]].expiration == live[others[i]].expiration
    {
      NotEarlier(live, now, ids, others, i);
      NotEarlier(live, now, others, ids, i);
    }
  }

  /** More distinct timers than places: one of them has none. */
  lemma {:induction false} WithoutPlace(front: seq<nat>, places: seq<nat>) returns (k: nat)
    requires |places| < |front| && forall i, j :: 0 <= i < j < |front| ==> front[i] != front[j]
    ensures k < |front| && front[k] !in places
    decreases |front|
  {
    k := |front| - 1;
    if front[k] in places {
      var n, p :| n == k && 0 <= p < |places| && places[p] == front[n];
      var others := places[..p] + places[p + 1..];
      k := WithoutPlace(front[..n], others);
      forall q | 0 <= q < |places|
        ensures places[q] != front[k]
      {
        assert q == p || places[q] == others[if q < p then q else q - 1];
      }
    }
  }

  /** The i-th of one order is not due before the i-th of the other. */
  lemma NotEarlier(live: Live, now: int, ids: seq<nat>, others: seq<nat>, i: nat)
    requires DueInOrder(live, now, ids) && DueInOrder(live, now, others) && i < |ids| == |others|
    ensures ids[i] in live && others[i] in live && live[ids[i]].expiration >= live[others[i]].expiration
  {
    var k := WithoutPlace(ids[..i + 1], others[..i]);
    var j :| 0 <= j < |others| && others[j] == ids[k];
    assert i <= j;
    assert live[others[i]].expiration <= live[others[j]].expiration;
    assert live[ids[k]].expiration <= live[ids[i]].expiration;
  }

  lemma {:induction false} OccursOnce(ids: seq<nat>, id: nat)
    requires forall i, j :: 0 <= i < j < |ids| ==> ids[i] != ids[j]
    ensures multiset(ids)[id] == if id in ids then 1 else 0
    decreases |ids|
  {
    if ids != [] {
      var n := |ids| - 1;
      assert ids == ids[..n] + [ids[n]];
      OccursOnce(ids[..n], id);
      assert forall i :: 0 <= i < n ==> ids[..n][i] == ids[i];
    }
  }

  // ---------- Waiting ----------

  /** Whole milliseconds from `now` to a deadline, rounded towards zero; none if it has passed. */
  function Wait(expiration: int, now: int): (ms: nat)
    ensures expiration >= now ==> now + ms * 1_000_000 <= expiration < now + (ms + 1) * 1_000_000
    ensures expiration < now ==> ms == 0
  {
    if expiration < now then 0 else (expiration - now) / NANOSECONDS
  }

  /** What is left of a number in a 32-bit int. */
  function Narrowed(n: int): (r: int)
    ensures -0x8000_0000 <= r < 0x8000_0000 && (r - n) % 0x1_0000_0000 == 0
    ensures 0 <= n < 0x8000_0000 ==> r == n
  {
    (n + INT_RANGE / 2) % INT_RANGE - INT_RANGE / 2
  }

  /** A count of milliseconds as the source casts it down: rounded towards zero, also below zero. */
  function ToMilliseconds(d: int): int {
    if d >= 0 then d / NANOSECONDS else -(-d / NANOSECONDS)
  }

  lemma WaitIs(expiration: int, now: int)
    ensures var diff := ToMilliseconds(expiration - now);
            Wait(expiration, now) == (if diff < 0 then 0 else diff) && Narrowed(0) == 0
  {
  }

  // ---------- Queue and map together ----------

  /** The queue holds one entry for each live timer, and the entries `dead` of cancelled ones. */
  ghost predicate Consistent(timers: multiset<TimerEvent>, live: Live, dead: multiset<TimerEvent>, lastId: nat) {
    && timers == Entries(live) + dead
    && (forall e :: e in dead ==> e.timerId !in live && e.timerId <= lastId)
    && (forall id :: id in live ==> id <= lastId)
  }

  lemma AddKeeps(timers: multiset<TimerEvent>, live: Live, dead: multiset<TimerEvent>, lastId: nat, t: LiveTimer)
    requires Consistent(timers, live, dead, lastId)
    ensures lastId + 1 !in live
    ensures Consistent(timers + multiset{Entry(lastId + 1, t)}, live[lastId + 1 := t], dead, lastId + 1)
  {
    EntriesAdd(live, lastId + 1, t);
  }

  lemma CancelKeeps(timers: multiset<TimerEvent>, live: Live, dead: multiset<TimerEvent>, lastId: nat, id: nat)
    requires Consistent(timers, live, dead, lastId) && id in live
    ensures Consistent(timers, live - {id}, dead + multiset{Entry(id, live[id])}, lastId)
  {
    EntriesRemove(live, id);
  }

  lemma RebuildKeeps(timers: multiset<TimerEvent>, live: Live, dead: multiset<TimerEvent>, lastId: nat)
    requires Consistent(timers, live, dead, lastId)
    ensures Consistent(Entries(live), live, multiset{}, lastId) && |timers| == |live| + |dead|
  {
    EntriesSize(live);
  }

  /** Popping an entry takes its live timer, or a dead entry, and nothing else. */
  lemma PopKeeps(timers: multiset<TimerEvent>, live: Live, dead: multiset<TimerEvent>, lastId: nat, e: TimerEvent)
    requires Consistent(timers, live, dead, lastId) && e in timers
    ensures e.timerId in live ==>
              && e == Entry(e.timerId, live[e.timerId])
              && Consistent(timers - multiset{e}, live - {e.timerId}, dead, lastId)
    ensures e.timerId !in live ==>
              e in dead && Consistent(timers - multiset{e}, live, dead - multiset{e}, lastId)
  {
    EntriesHas(live, e);
    if e.timerId in live {
      EntriesRemove(live, e.timerId);
    }
  }

  lemma LiveIsQueued(timers: multiset<TimerEvent>, live: Live, dead: multiset<TimerEvent>, lastId: nat, id: nat)
    requires Consistent(timers, live, dead, lastId) && id in live
    ensures timers[Entry(id, live[id])] == 1
    ensures forall e :: e in timers && e.timerId == id ==> e == Entry(id, live[id])
  {
    EntriesHas(live, Entry(id, live[id]));
    forall e | e in timers && e.timerId == id
      ensures e == Entry(id, live[id])
    {
      EntriesHas(live, e);
    }
  }

  /** Midway through expiry: `ids` have fired in order, `live` of `all` is left, and the queue is due no earlier. */
  ghost predicate Firing(all: Live, now: int, timers: multiset<TimerEvent>, live: Live, ids: seq<nat>) {
    && (forall id :: id in live ==> id in all && live[id] == all[id] && id !in ids)
    && (forall id :: id in all && id !in live ==> id in ids)
    && (forall i :: 0 <= i < |ids| ==> ids[i] in all && all[ids[i]].expiration <= now)
    && (forall i, e :: 0 <= i < |ids| && e in timers ==> all[ids[i]].expiration <= e.expiration)
    && (forall i, j :: 0 <= i < j < |ids| ==> ids[i] != ids[j] && all[ids[i]].expiration <= all[ids[j]].expiration)
  }

  lemma FireOne(all: Live, now: int, timers: multiset<TimerEvent>, live: Live, ids: seq<nat>, top: TimerEvent)
    requires Firing(all, now, timers, live, ids) && IsTop(timers, top) && top.expiration <= now
    requires top.timerId in live && top == Entry(top.timerId, live[top.timerId])
    ensures Firing(all, now, timers - multiset{top}, live - {top.timerId}, ids + [top.timerId])
  {
    var ids', timers' := ids + [top.timerId], timers - multiset{top};
    assert forall e :: e in timers' ==> e in timers;
    forall i, e | 0 <= i < |ids'| && e in timers'
      ensures ids'[i] in all && all[ids'[i]].expiration <= e.expiration
    {
    }
  }

  lemma SkipOne(all: Live, now: int, timers: multiset<TimerEvent>, live: Live, ids: seq<nat>, top: TimerEvent)
    requires Firing(all, now, timers, live, ids)
    ensures Firing(all, now, timers - multiset{top}, live, ids)
  {
    assert forall e :: e in timers - multiset{top} ==> e in timers;
  }

  lemma FiringDone(all: Live, now: int, timers: multiset<TimerEvent>, live: Live, ids: seq<nat>)
    requires Firing(all, now, timers, live, ids)
    requires forall id :: id in live ==> live[id].expiration > now
    ensures DueInOrder(all, now, ids)
    ensures live == map id | id in all && all[id].expiration > now :: all[id]
  {
  }

  class TimerManager {
    var timers: multiset<TimerEvent>
    var live: Live
    var nextTimerId: nat

    ghost var dead: multiset<TimerEvent>  // entries of timers that were cancelled
    ghost var cancelled: nat              // effective cancels so far
    ghost var rebuilt: nat                // entries copied by compaction so far

    /** Queue and map agree, and every entry compaction copied is paid for by a cancel. */
    ghost predicate Valid()
      reads this
    {
      Consistent(timers, live, dead, nextTimerId) && rebuilt + |dead| <= cancelled
    }

    constructor ()
      ensures Valid() && live == map[] && cancelled == 0 && rebuilt == 0
    {
      timers, live, nextTimerId := multiset{}, map[], 1;
      dead, cancelled, rebuilt := multiset{}, 0, 0;
      new;
      assert Entries(live) == multiset{};
    }

    method AddTimer(fd: int, timeout: int, now: int) returns (id: nat)
      requires Valid()
      modifies this
      ensures Valid() && id !in old(live) && live == old(live)[id := LiveTimer(fd, now + timeout * 1_000_000)]
      ensures cancelled == old(cancelled) && rebuilt >= old(rebuilt) && |timers| <= 2 * |live| + 64
    {
      hide Consistent, Entries;
      AddKeeps(timers, live, dead, nextTimerId, LiveTimer(fd, now + timeout * NANOSECONDS));
      nextTimerId := nextTimerId + 1;
      id := nextTimerId;
      live := live[id := LiveTimer(fd, now + timeout * NANOSECONDS)];
      timers := timers + multiset{TimerEvent(now + timeout * NANOSECONDS, id, fd)};
      CompactIfNeeded();
    }

    method CancelTimer(id: nat)
      requires Valid()
      modifies this
      ensures Valid() && live == old(live) - {id}
      ensures cancelled == old(cancelled) + (if id in old(live) then 1 else 0)
      ensures rebuilt >= old(rebuilt) && |timers| <= 2 * |live| + 64
    {
      hide Consistent, Entries;
      if id in live {
        CancelKeeps(timers, live, dead, nextTimerId, id);
        dead := dead + multiset{Entry(id, live[id])};
        cancelled := cancelled + 1;
      } else {
        assert live - {id} == live;
      }
      live := live - {id};
      CompactIfNeeded();
    }

    method LiveEntries() returns (entries: multiset<TimerEvent>)
      ensures entries == Entries(live)
    {
      entries := multiset{};
      var todo := live;
      while todo != map[]
        invariant entries + Entries(todo) == Entries(live)
        decreases |todo|
      {
        var id :| id in todo;
        EntriesRemove(todo, id);
        DropKey(todo, id);
        entries := entries + multiset{TimerEvent(todo[id].expiration, id, todo[id].fd)};
        todo := todo - {id};
      }
      assert Entries(todo) == multiset{};
    }

    /** Rebuilds the queue from the live timers once cancelled entries dominate it. */
    method CompactIfNeeded()
      requires Valid()
      modifies this`timers, this`dead, this`rebuilt
      ensures Valid() && |timers| <= 2 * |live| + 64
      ensures if |old(timers)| > 2 * |live| + 64
              then timers == Entries(live) && rebuilt == old(rebuilt) + |live|
              else timers == old(timers) && rebuilt == old(rebuilt)
    {
      hide Consistent, Entries;
      if |timers| <= 2 * |live| + COMPACTION_SLACK {
        return;
      }
      RebuildKeeps(timers, live, dead, nextTimerId);
      EntriesSize(live);
      timers := LiveEntries();
      rebuilt := rebuilt + |live|;
      dead := multiset{};
    }

    /** The front of the queue; on ties, any of the entries due first. */
    method Top() returns (top: TimerEvent)
      requires timers != multiset{}
      ensures top in timers && IsTop(timers, top)
    {
      TopExists(timers);
      top :| top in timers && IsTop(timers, top);
    }

    method DropCancelledFront()
      requires Valid()
      modifies this`timers, this`dead
      ensures Valid()
      ensures timers == multiset{} || exists top :: IsTop(timers, top) && top.timerId in live
    {
      hide Consistent, Entries;
      while timers != multiset{}
        invariant Valid()
        decreases |timers|
      {
        var top := Top();
        if top.timerId in live {
          return;
        }
        PopKeeps(timers, live, dead, nextTimerId, top);
        timers := timers - multiset{top};
        dead := dead - multiset{top};
      }
    }

    /**
     How long the loop may sleep: never past the least live deadline, and less than a millisecond short of it,
     as long as that fits an int; -1, without end, if no timer is live.
     */
    method GetNextTimeout(now: int) returns (timeout: int)
      requires Valid()
      modifies this`timers, this`dead
      ensures Valid()
      ensures live == map[] ==> timeout == -1
      ensures live != map[] ==> exists id :: IsNext(live, id)
      ensures forall id :: IsNext(live, id) ==>
                var wait := Wait(live[id].expiration, now);
                timeout == Narrowed(wait) && (wait < 0x8000_0000 ==> timeout == wait)
    {
      hide Consistent, Entries, Wait, Narrowed, ToMilliseconds;
      DropCancelledFront();
      forall id | id in live
        ensures Entry(id, live[id]) in timers
      {
        LiveIsQueued(timers, live, dead, nextTimerId, id);
      }
      if timers == multiset{} {
        assert live == map[];
        return -1;
      }
      var top := Top();
      ghost var next :| IsTop(timers, next) && next.timerId in live;
      PopKeeps(timers, live, dead, nextTimerId, next);
      assert forall id :: id in live ==> next.expiration <= Entry(id, live[id]).expiration;
      assert IsNext(live, next.timerId);
      var diff := ToMilliseconds(top.expiration - now);
      timeout := if diff < 0 then 0 else Narrowed(diff);
      WaitIs(top.expiration, now);
    }

    /** Takes the front entry off the queue; if its timer is live, it fires: its id and descriptor are returned. */
    method PopFront(top: TimerEvent, now: int, ghost all: Live, ghost fired: seq<nat>)
      returns (ids: seq<nat>, fds: seq<int>)
      requires Valid() && Firing(all, now, timers, live, fired)
      requires top in timers && IsTop(timers, top) && top.expiration <= now
      modifies this`timers, this`live, this`dead
      ensures Valid() && Firing(all, now, timers, live, fired + ids)
      ensures |ids| == |fds| && forall i :: 0 <= i < |ids| ==> ids[i] in all && fds[i] == all[ids[i]].fd
      ensures |timers| < |old(timers)|
    {
      hide Consistent, Entries, Firing, IsTop;
      PopKeeps(timers, live, dead, nextTimerId, top);
      ids, fds := [], [];
      if top.timerId in live {
        FireOne(all, now, timers, live, fired, top);
        FiringKeepsTimer(all, now, timers, live, fired, top.timerId);
        ids, fds := [top.timerId], [live[top.timerId].fd];
        live := live - {top.timerId};
      } else {
        SkipOne(all, now, timers, live, fired, top);
        assert fired + ids == fired;
        dead := dead - multiset{top};
      }
      timers := timers - multiset{top};
    }

    /** Fires the live timers that are due, in deadline order. Returns their ids and descriptors. */
    method HandleExpiredTimers(now: int) returns (expired: seq<int>, ids: seq<nat>)
      requires Valid()
      modifies this`timers, this`live, this`dead
      ensures Valid() && DueInOrder(old(live), now, ids)
      ensures |expired| == |ids| && forall i :: 0 <= i < |ids| ==> expired[i] == old(live)[ids[i]].fd
      ensures live == map id | id in old(live) && old(live)[id].expiration > now :: old(live)[id]
    {
      hide Consistent, Entries, Firing, IsTop, DueInOrder;
      ghost var all := live;
      expired, ids := [], [];
      NothingFired(all, now, timers);
      while timers != multiset{}
        invariant Valid() && Firing(all, now, timers, live, ids)
        invariant |expired| == |ids|
        invariant forall i :: 0 <= i < |ids| ==> ids[i] in all && expired[i] == all[ids[i]].fd
        decreases |timers|
      {
        var top := Top();
        if top.expiration > now {
          break;
        }
        var id, fd := PopFront(top, now, all, ids);
        expired, ids := expired + fd, ids + id;
      }
      forall id | id in live
        ensures live[id].expiration > now
      {
        LiveIsQueued(timers, live, dead, nextTimerId, id);
        TopIsFirst(timers, Entry(id, live[id]), now);
      }
      FiringDone(all, now, timers, live, ids);
    }
  }

  lemma NothingFired(all: Live, now: int, timers: multiset<TimerEvent>)
    ensures Firing(all, now, timers, all, [])
  {
  }

  lemma FiringKeepsTimer(all: Live, now: int, timers: multiset<TimerEvent>, live: Live, ids: seq<nat>, id: nat)
    requires Firing(all, now, timers, live, ids) && id in live
    ensures id in all && live[id] == all[id]
  {
  }

  lemma TopIsFirst(timers: multiset<TimerEvent>, e: TimerEvent, now: int)
    requires e in timers
    requires timers == multiset{} || exists top :: IsTop(timers, top) && top.expiration > now
    ensures e.expiration > now
  {
  }
}
