/**
 Closing a WebSocket from several threads. Any number of threads send, ping, answer pings, close, fail
 the connection, answer a peer's close or report a lost transport, one atomic step at a time. Frames are
 written under the send mutex; a lost transport sets the closed flag without it.
 */
module WebSocketClosing {

  type Thread = nat

  datatype Kind = Data | CloseFrame

  datatype Operation =
    | Sending      // send_frame, ping and the pong reply: check the flag, then write
    | Closing      // close, fail_connection and handle_close_frame: set the flag, write if it was clear
    | Losing       // handle_transport_closed: set the flag, no mutex

  datatype Pc =
    | Idle
    | Waiting(op: Operation)   // before the mutex (or, losing, before the exchange)
    | Inside(op: Operation)    // holds the mutex, flag not looked at yet
    | WillWrite(kind: Kind)    // holds the mutex, decided to write this frame
    | Leaving                  // holds the mutex, nothing left to do

  /** `lostFirst` records that the transport was lost before anyone closed. */
  datatype System = System(closed: bool, lostFirst: bool, holder: int, wire: seq<Kind>, pcs: map<Thread, Pc>)

  const NOBODY := -1
  const INIT := System(false, false, NOBODY, [], map[])

  function PcOf(s: System, t: Thread): Pc {
    if t in s.pcs then s.pcs[t] else Idle
  }

  function At(s: System, t: Thread, pc: Pc): System {
    s.(pcs := s.pcs[t := pc])
  }

  /** One atomic step of thread t; an idle thread starts operation op, a blocked one stays where it is. */
  function Next(s: System, t: Thread, op: Operation): System {
    match PcOf(s, t)
    case Idle => At(s, t, Waiting(op))
    case Waiting(Losing) => At(s.(closed := true, lostFirst := s.lostFirst || !s.closed), t, Idle)
    case Waiting(o) => if s.holder == NOBODY then At(s.(holder := t), t, Inside(o)) else s
    case Inside(Sending) => At(s, t, if s.closed then Leaving else WillWrite(Data))
    case Inside(_) => At(s.(closed := true), t, if s.closed then Leaving else WillWrite(CloseFrame))
    case WillWrite(kind) => At(s.(wire := s.wire + [kind]), t, Leaving)
    case Leaving => At(s.(holder := NOBODY), t, Idle)
  }

  function Execute(s: System, schedule: seq<(Thread, Operation)>): System
    decreases |schedule|
  {
    if schedule == [] then s
    else Execute(Next(s, schedule[0].0, schedule[0].1), schedule[1..])
  }

  predicate InMutex(pc: Pc) {
    pc.Inside? || pc.WillWrite? || pc.Leaving?
  }

  /** Mutual exclusion; a lost transport never takes the mutex. */
  ghost predicate Exclusive(s: System) {
    && (forall t :: InMutex(PcOf(s, t)) <==> s.holder == t)
    && (forall t :: PcOf(s, t) != Inside(Losing))
  }

  /** The last frame written is a Close frame. */
  predicate CloseSent(wire: seq<Kind>) {
    |wire| > 0 && wire[|wire| - 1] == CloseFrame
  }

  ghost predicate NoEarlyClose(wire: seq<Kind>) {
    forall i :: 0 <= i < |wire| - 1 ==> wire[i] != CloseFrame
  }

  /** A Close frame is last, and only on a closed connection; whoever will write does so before it is out. */
  ghost predicate CloseIsLast(s: System) {
    && NoEarlyClose(s.wire)
    && (CloseSent(s.wire) ==> s.closed)
    && (forall t :: PcOf(s, t).WillWrite? ==> !CloseSent(s.wire))
    && (forall t :: PcOf(s, t) == WillWrite(CloseFrame) ==> s.closed)
  }

  /** Whoever set the flag under the mutex writes the frame before leaving it. */
  ghost predicate CloseIsComing(s: System) {
    s.closed && !s.lostFirst && !CloseSent(s.wire) ==>
      s.holder >= 0 && PcOf(s, s.holder) == WillWrite(CloseFrame)
  }

  ghost predicate Inv(s: System) {
    Exclusive(s) && CloseIsLast(s) && CloseIsComing(s)
  }

  lemma StaysExclusive(s: System, t: Thread, op: Operation)
    requires Exclusive(s)
    ensures Exclusive(Next(s, t, op))
  {
    var s' := Next(s, t, op);
    assert forall u :: u != t ==> PcOf(s', u) == PcOf(s, u);
  }

  lemma StaysLast(s: System, t: Thread, op: Operation)
    requires Exclusive(s) && CloseIsLast(s)
    ensures CloseIsLast(Next(s, t, op))
  {
    var s' := Next(s, t, op);
    forall u | u != t && PcOf(s', u).WillWrite?
      ensures !CloseSent(s'.wire) && (PcOf(s', u) == WillWrite(CloseFrame) ==> s'.closed)
    {
      assert PcOf(s', u) == PcOf(s, u);
      assert InMutex(PcOf(s, u)) && s.holder == u;
      assert !InMutex(PcOf(s, t));
    }
    if PcOf(s, t).WillWrite? {
      assert !CloseSent(s.wire);
      assert NoEarlyClose(s'.wire);
    }
  }

  lemma StaysComing(s: System, t: Thread, op: Operation)
    requires Exclusive(s) && CloseIsLast(s) && CloseIsComing(s)
    ensures CloseIsComing(Next(s, t, op))
  {
    var s' := Next(s, t, op);
    if s.holder >= 0 && s.holder != t {
      assert !InMutex(PcOf(s, t));
      assert PcOf(s', s.holder) == PcOf(s, s.holder);
    }
    if InMutex(PcOf(s, t)) {
      assert s.holder == t;
    }
  }

  lemma NextKeeps(s: System, t: Thread, op: Operation)
    requires Inv(s)
    ensures Inv(Next(s, t, op))
  {
    hide Exclusive, CloseIsLast, CloseIsComing, Next;
    StaysExclusive(s, t, op);
    StaysLast(s, t, op);
    StaysComing(s, t, op);
  }

  lemma {:induction false} ExecuteKeeps(s: System, schedule: seq<(Thread, Operation)>)
    requires Inv(s)
    ensures Inv(Execute(s, schedule))
    decreases |schedule|
  {
    if schedule != [] {
      NextKeeps(s, schedule[0].0, schedule[0].1);
      ExecuteKeeps(Next(s, schedule[0].0, schedule[0].1), schedule[1..]);
    }
  }

  /** In every interleaving, nothing is written after a Close frame: no frame, and no second Close. */
  lemma NothingAfterClose(schedule: seq<(Thread, Operation)>)
    ensures var wire := Execute(INIT, schedule).wire;
            forall i :: 0 <= i < |wire| - 1 ==> wire[i] != CloseFrame
  {
    ExecuteKeeps(INIT, schedule);
  }

  /** Once the mutex is free, a connection closed before its transport was lost has sent its one Close frame. */
  lemma CloseIsSent(schedule: seq<(Thread, Operation)>)
    ensures var s := Execute(INIT, schedule);
            s.closed && !s.lostFirst && s.holder == NOBODY ==> CloseSent(s.wire)
  {
    ExecuteKeeps(INIT, schedule);
  }

  /** n steps of one thread; five take it into the mutex, through its operation and out again. */
  function Steps(t: Thread, op: Operation, n: nat): seq<(Thread, Operation)> {
    if n == 0 then [] else [(t, op)] + Steps(t, op, n - 1)
  }

  lemma OneStep(s: System, t: Thread, op: Operation, n: nat)
    requires n > 0
    ensures Execute(s, Steps(t, op, n)) == Execute(Next(s, t, op), Steps(t, op, n - 1))
  {
    hide Next;
    assert Steps(t, op, n)[1..] == Steps(t, op, n - 1);
  }

  lemma FiveSteps(s: System, t: Thread, op: Operation)
    ensures Execute(s, Steps(t, op, 5)) == Next(Next(Next(Next(Next(s, t, op), t, op), t, op), t, op), t, op)
  {
    hide Next;
    var s1 := Next(s, t, op);
    var s2 := Next(s1, t, op);
    var s3 := Next(s2, t, op);
    var s4 := Next(s3, t, op);
    OneStep(s, t, op, 5);
    OneStep(s1, t, op, 4);
    OneStep(s2, t, op, 3);
    OneStep(s3, t, op, 2);
    OneStep(s4, t, op, 1);
  }

  /** Undisturbed, an operation does what it is for: a send writes its frame unless the connection is closed. */
  lemma SendUndisturbed(s: System, t: Thread)
    requires s.holder == NOBODY && PcOf(s, t).Idle? && !s.closed
    ensures var s' := Execute(s, Steps(t, Sending, 5));
            s'.wire == s.wire + [Data] && !s'.closed && s'.holder == NOBODY && PcOf(s', t).Idle?
  {
    FiveSteps(s, t, Sending);
  }

  /** A close writes a Close frame, and after it the connection is closed. */
  lemma CloseUndisturbed(s: System, t: Thread)
    requires s.holder == NOBODY && PcOf(s, t).Idle? && !s.closed
    ensures var s' := Execute(s, Steps(t, Closing, 5));
            s'.wire == s.wire + [CloseFrame] && s'.closed && s'.holder == NOBODY && PcOf(s', t).Idle?
  {
    FiveSteps(s, t, Closing);
  }

  /** A lost transport closes the connection without writing, whoever holds the mutex. */
  lemma LossUndisturbed(s: System, t: Thread)
    requires PcOf(s, t).Idle?
    ensures var s' := Execute(s, Steps(t, Losing, 2));
            s'.closed && s'.wire == s.wire && s'.holder == s.holder && PcOf(s', t).Idle?
  {
    OneStep(s, t, Losing, 2);
    OneStep(Next(s, t, Losing), t, Losing, 1);
  }

  lemma NextWhenClosed(s: System, t: Thread, op: Operation)
    requires s.closed && forall u :: !PcOf(s, u).WillWrite?
    ensures var s' := Next(s, t, op); s'.closed && s'.wire == s.wire && forall u :: !PcOf(s', u).WillWrite?
  {
    var s' := Next(s, t, op);
    assert forall u :: u != t ==> PcOf(s', u) == PcOf(s, u);
  }

  /** Once the connection is closed and nobody is about to write, nothing is written any more. */
  lemma {:induction false} ClosedIsSilent(s: System, schedule: seq<(Thread, Operation)>)
    requires s.closed && forall u :: !PcOf(s, u).WillWrite?
    ensures Execute(s, schedule).closed && Execute(s, schedule).wire == s.wire
    decreases |schedule|
  {
    hide Next;
    if schedule != [] {
      NextWhenClosed(s, schedule[0].0, schedule[0].1);
      ClosedIsSilent(Next(s, schedule[0].0, schedule[0].1), schedule[1..]);
    }
  }
}
