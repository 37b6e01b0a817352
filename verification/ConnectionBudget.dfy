/**
 The connection limit several event loops share: an atomic counter taken with a compare-and-swap loop before
 accepting, and given back when a connection is removed from its manager's map or nothing was accepted.
 Any number of threads accept and remove, one atomic step at a time.
 */
module ConnectionBudget {
  import opened Collections

  type Thread = nat
  type Fd = nat
  type Id = nat   // one per accepted connection; descriptors are used again

  /**
   `looking` holds what each thread in reserve_slot last read; `reserved` are threads with a slot but no
   connection yet; `reporting` threads that took a connection out of the map and have not given its slot
   back; `returned` logs the connections whose slot was given back.
   */
  datatype System = System(
    open: int, connections: map<Fd, Id>, looking: map<Thread, int>, reserved: set<Thread>,
    reporting: map<Thread, Id>, returned: seq<Id>, accepted: nat)

  const INIT := System(0, map[], map[], {}, map[], [], 0)

  datatype Choice =
    | Load(t: Thread)                        // reserve_slot reads the counter
    | Exchange(t: Thread, spurious: bool)    // one turn of its loop; a weak exchange may fail for no reason
    | AcceptFails(t: Thread)                 // accept returned nothing: the slot goes back
    | Accepts(t: Thread, fd: Fd)             // add_connection
    | Removes(t: Thread, fd: Fd)             // remove_connection: the map's critical section
    | Reports(t: Thread)                     // its on_removed callback

  predicate Busy(s: System, t: Thread) {
    t in s.looking || t in s.reserved || t in s.reporting
  }

  /** One atomic step; a choice that is not possible now does nothing. */
  function Next(max: int, s: System, c: Choice): System {
    match c
    case Load(t) => if Busy(s, t) then s else s.(looking := s.looking[t := s.open])
    case Exchange(t, spurious) =>
      if t !in s.looking then s
      else if s.looking[t] >= max then s.(looking := s.looking - {t})
      else if s.open == s.looking[t] && !spurious then
        s.(open := s.open + 1, looking := s.looking - {t}, reserved := s.reserved + {t})
      else s.(looking := s.looking[t := s.open])
    case AcceptFails(t) =>
      if t in s.reserved then s.(open := s.open - 1, reserved := s.reserved - {t}) else s
    case Accepts(t, fd) =>
      // The kernel hands out no descriptor that is still open.
      if t in s.reserved && fd !in s.connections then
        s.(reserved := s.reserved - {t}, connections := s.connections[fd := s.accepted], accepted := s.accepted + 1)
      else s
    case Removes(t, fd) =>
      if !Busy(s, t) && fd in s.connections then
        s.(connections := s.connections - {fd}, reporting := s.reporting[t := s.connections[fd]])
      else s
    case Reports(t) =>
      if t in s.reporting then
        s.(open := s.open - 1, reporting := s.reporting - {t}, returned := s.returned + [s.reporting[t]])
      else s
  }

  function Execute(max: int, s: System, choices: seq<Choice>): System
    decreases |choices|
  {
    if choices == [] then s else Execute(max, Next(max, s, choices[0]), choices[1..])
  }

  // ---------- What every step keeps ----------

  /** The counter is the connections in maps, the slots reserved, and the removals not reported yet. */
  ghost predicate Counted(max: int, s: System) {
    && s.open == |s.connections| + |s.reserved| + |s.reporting|
    && (s.open <= max || s.open == 0)
    && s.accepted == |s.connections| + |s.reporting| + |s.returned|
  }

  /** A thread is in one phase at a time. */
  ghost predicate OnePhase(s: System) {
    s.looking.Keys !! s.reserved && s.looking.Keys !! s.reporting.Keys && s.reserved !! s.reporting.Keys
  }

  ghost predicate Injective<K(!new)>(m: map<K, Id>) {
    forall k, l :: k in m && l in m && m[k] == m[l] ==> k == l
  }

  /** Every accepted connection is in one place: in a map, being reported, or given back. */
  ghost predicate Placed(s: System) {
    && Injective(s.connections) && Injective(s.reporting)
    && (forall f :: f in s.connections ==> s.connections[f] < s.accepted && s.connections[f] !in s.returned)
    && (forall t :: t in s.reporting ==> s.reporting[t] < s.accepted && s.reporting[t] !in s.returned)
    && (forall f, t :: f in s.connections && t in s.reporting ==> s.connections[f] != s.reporting[t])
    && (forall i :: 0 <= i < |s.returned| ==> s.returned[i] < s.accepted)
    && (forall i, j :: 0 <= i < j < |s.returned| ==> s.returned[i] != s.returned[j])
  }

  lemma ExchangeKeepsCounted(max: int, s: System, t: Thread, spurious: bool)
    requires Counted(max, s) && OnePhase(s)
    ensures Counted(max, Next(max, s, Exchange(t, spurious)))
  {
  }

  lemma KeepsCounted(max: int, s: System, c: Choice)
    requires Counted(max, s) && OnePhase(s)
    ensures Counted(max, Next(max, s, c))
  {
    match c
    case Load(_) =>
    case Exchange(t, spurious) => ExchangeKeepsCounted(max, s, t, spurious);
    case AcceptFails(_) =>
    case Accepts(t, fd) => AcceptKeepsCounted(max, s, t, fd);
    case Removes(t, fd) => RemoveKeepsCounted(max, s, t, fd);
    case Reports(t) =>
      if t in s.reporting {
        DropKey(s.reporting, t);
      }
  }

  lemma AcceptKeepsCounted(max: int, s: System, t: Thread, fd: Fd)
    requires Counted(max, s) && OnePhase(s)
    ensures Counted(max, Next(max, s, Accepts(t, fd)))
  {
    if fd !in s.connections {
      PutKey(s.connections, fd, s.accepted);
    }
  }

  lemma RemoveKeepsCounted(max: int, s: System, t: Thread, fd: Fd)
    requires Counted(max, s) && OnePhase(s)
    ensures Counted(max, Next(max, s, Removes(t, fd)))
  {
    if !Busy(s, t) && fd in s.connections {
      DropKey(s.connections, fd);
      PutKey(s.reporting, t, s.connections[fd]);
    }
  }

  lemma KeepsOnePhase(max: int, s: System, c: Choice)
    requires OnePhase(s)
    ensures OnePhase(Next(max, s, c))
  {
  }

  lemma AcceptKeepsPlaced(s: System, fd: Fd, reserved: set<Thread>)
    requires Placed(s) && fd !in s.connections
    ensures Placed(s.(reserved := reserved, connections := s.connections[fd := s.accepted], accepted := s.accepted + 1))
  {
    assert s.accepted !in s.returned;
  }

  lemma RemoveKeepsPlaced(s: System, t: Thread, fd: Fd)
    requires Placed(s) && fd in s.connections && t !in s.reporting
    ensures Placed(s.(connections := s.connections - {fd}, reporting := s.reporting[t := s.connections[fd]]))
  {
  }

  lemma ReportKeepsPlaced(s: System, t: Thread, open: int)
    requires Placed(s) && t in s.reporting
    ensures Placed(s.(open := open, reporting := s.reporting - {t}, returned := s.returned + [s.reporting[t]]))
  {
    assert forall f :: f in s.connections ==> s.connections[f] != s.reporting[t];
    assert forall u :: u in s.reporting - {t} ==> s.reporting[u] != s.reporting[t];
  }

  lemma KeepsPlaced(max: int, s: System, c: Choice)
    requires Placed(s)
    ensures Placed(Next(max, s, c))
  {
    hide Placed;
    var s' := Next(max, s, c);
    if c.Accepts? && c.t in s.reserved && c.fd !in s.connections {
      AcceptKeepsPlaced(s, c.fd, s.reserved - {c.t});
    } else if c.Removes? && !Busy(s, c.t) && c.fd in s.connections {
      RemoveKeepsPlaced(s, c.t, c.fd);
    } else if c.Reports? && c.t in s.reporting {
      ReportKeepsPlaced(s, c.t, s.open - 1);
    } else {
      SamePlaces(s, s');
    }
  }

  lemma SamePlaces(s: System, s': System)
    requires Placed(s) && s'.connections == s.connections && s'.reporting == s.reporting
    requires s'.returned == s.returned && s'.accepted == s.accepted
    ensures Placed(s')
  {
  }

  lemma {:induction false} ExecuteKeeps(max: int, s: System, choices: seq<Choice>)
    requires Counted(max, s) && OnePhase(s) && Placed(s)
    ensures Counted(max, Execute(max, s, choices)) && Placed(Execute(max, s, choices))
    decreases |choices|
  {
    hide Next, Counted, Placed, OnePhase;
    if choices != [] {
      KeepsCounted(max, s, choices[0]);
      KeepsOnePhase(max, s, choices[0]);
      KeepsPlaced(max, s, choices[0]);
      ExecuteKeeps(max, Next(max, s, choices[0]), choices[1..]);
    }
  }

  /** In every interleaving the counter is exact, never above the limit and never below zero. */
  lemma LimitHolds(max: nat, choices: seq<Choice>)
    ensures var s := Execute(max, INIT, choices);
            && s.open == |s.connections| + |s.reserved| + |s.reporting|
            && 0 <= s.open <= max && |s.connections| <= max
  {
    ExecuteKeeps(max, INIT, choices);
  }

  /** Each connection gives its slot back at most once, however many threads remove it, and by then is in no map. */
  lemma SlotsReturnOnce(max: nat, choices: seq<Choice>)
    ensures var s := Execute(max, INIT, choices);
            && (forall i, j :: 0 <= i < j < |s.returned| ==> s.returned[i] != s.returned[j])
            && (forall f :: f in s.connections ==> s.connections[f] !in s.returned)
            && |s.returned| + |s.reporting| + |s.connections| == s.accepted
  {
    ExecuteKeeps(max, INIT, choices);
  }

  // ---------- What reserve_slot answers ----------

  /** A call of reserve_slot that nothing interrupts, its exchange failing n times for no reason. */
  function Alone(t: Thread, n: nat): seq<Choice> {
    if n == 0 then [Exchange(t, false)] else [Exchange(t, true)] + Alone(t, n - 1)
  }

  lemma {:induction false} AloneLoop(max: int, s: System, t: Thread, n: nat)
    requires t in s.looking && s.looking[t] == s.open
    ensures var rest := s.looking - {t};
            Execute(max, s, Alone(t, n)) ==
            if s.open < max then s.(open := s.open + 1, looking := rest, reserved := s.reserved + {t})
            else s.(looking := rest)
    decreases n
  {
    var c := Alone(t, n)[0];
    if n == 0 {
      assert Alone(t, n)[1..] == [];
    } else {
      assert Alone(t, n)[1..] == Alone(t, n - 1);
      if s.open < max {
        assert s.looking[t := s.open] == s.looking;
        AloneLoop(max, s, t, n - 1);
      } else {
        NotLooking(max, Next(max, s, c), t, n - 1);
      }
    }
  }

  lemma {:induction false} NotLooking(max: int, s: System, t: Thread, n: nat)
    requires t !in s.looking
    ensures Execute(max, s, Alone(t, n)) == s
    decreases n
  {
    if n == 0 {
      assert Alone(t, n)[1..] == [];
    } else {
      assert Alone(t, n)[1..] == Alone(t, n - 1);
      NotLooking(max, s, t, n - 1);
    }
  }

  /** Uninterrupted, reserve_slot takes exactly one slot if one is free, and else changes nothing. */
  lemma ReservesIfFree(max: int, s: System, t: Thread, n: nat)
    requires !Busy(s, t)
    ensures Execute(max, s, [Load(t)] + Alone(t, n)) ==
            if s.open < max then s.(open := s.open + 1, reserved := s.reserved + {t}) else s
  {
    var run := [Load(t)] + Alone(t, n);
    assert run[1..] == Alone(t, n);
    AloneLoop(max, Next(max, s, Load(t)), t, n);
    assert s.looking[t := s.open] - {t} == s.looking;
  }

  lemma LooksUp(max: int, s: System, c: Choice, t: Thread)
    requires t in Next(max, s, c).looking
    ensures Next(max, s, c).looking[t] == s.open || (t in s.looking && Next(max, s, c).looking[t] == s.looking[t])
  {
  }

  /** What a thread last read was the counter at some moment, or what it had read before. */
  lemma {:induction false} ReadAtSomeMoment(max: int, s: System, run: seq<Choice>, t: Thread) returns (i: nat)
    requires t in Execute(max, s, run).looking
    ensures i <= |run|
    ensures var read := Execute(max, s, run).looking[t];
            (t in s.looking && read == s.looking[t]) || read == Execute(max, s, run[..i]).open
    decreases |run|
  {
    hide Next;
    i := 0;
    if run != [] {
      var s1 := Next(max, s, run[0]);
      i := ReadAtSomeMoment(max, s1, run[1..], t);
      if t in s1.looking && Execute(max, s, run).looking[t] == s1.looking[t] {
        LooksUp(max, s, run[0], t);
        i := 0;
        assert run[..0] == [];
      } else {
        assert run[..i + 1][0] == run[0] && run[..i + 1][1..] == run[1..][..i];
        i := i + 1;
      }
    }
  }

  /** However other threads interleave, reserve_slot gives up only if the limit was reached at some moment of the call. */
  lemma GivesUpOnlyAtLimit(max: int, s: System, run: seq<Choice>, t: Thread, spurious: bool) returns (i: nat)
    requires !Busy(s, t) && t in Execute(max, Next(max, s, Load(t)), run).looking
    requires var s' := Next(max, Execute(max, Next(max, s, Load(t)), run), Exchange(t, spurious));
             t !in s'.looking && t !in s'.reserved
    ensures i <= |run| && Execute(max, Next(max, s, Load(t)), run[..i]).open >= max
  {
    var s0 := Next(max, s, Load(t));
    i := ReadAtSomeMoment(max, s0, run, t);
    if Execute(max, s0, run[..i]).open < max {
      i := 0;
      assert run[..0] == [];
    }
  }

  // ---------- Where a slot goes ----------

  /** A slot for which nothing was accepted goes straight back. */
  lemma UnusedSlotReturns(max: int, s: System, t: Thread)
    requires t in s.reserved
    ensures Next(max, s, AcceptFails(t)) == s.(open := s.open - 1, reserved := s.reserved - {t})
  {
  }

  /** A slot becomes a connection of its own, and the counter stands. */
  lemma SlotBecomesConnection(max: int, s: System, t: Thread, fd: Fd)
    requires t in s.reserved && fd !in s.connections
    ensures var s' := Next(max, s, Accepts(t, fd));
            && s'.open == s.open && t !in s'.reserved && fd in s'.connections && s'.connections - {fd} == s.connections
            && s'.connections[fd] == s.accepted && s'.accepted == s.accepted + 1
  {
  }

  /**
   Whatever any number of threads ask for: the first that removes a connection takes it out and later gives its
   slot back, and the others find nothing to remove.
   */
  lemma RemovedOnce(max: int, s: System, t: Thread, u: Thread, fd: Fd)
    requires !Busy(s, t) && !Busy(s, u) && t != u && fd in s.connections
    ensures var s1 := Next(max, s, Removes(t, fd));
            var s2 := Next(max, s1, Removes(u, fd));
            var s3 := Next(max, s2, Reports(t));
            && s2 == s1 && s1.open == s.open && s1.connections == s.connections - {fd}
            && s3.open == s.open - 1 && s3.returned == s.returned + [s.connections[fd]] && !Busy(s3, t)
  {
  }
}
