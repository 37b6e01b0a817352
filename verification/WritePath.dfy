/**
 The write path of a plaintext connection (in-memory responses). Any number of threads queue output;
 one token, `isWriting`, guards the outstanding write. The system is a set of threads that each take one
 atomic step at a time: append under the lock, compare-and-swap, swap buffers under the lock, submit,
 clear the token, re-check under the lock. The proactor completes a write with some bytes, with
 would-block, or with a failure, on any thread.
 */
module WritePath {
  import opened Bytes

  type Thread = nat

  datatype Pc =
    | Idle
    | Trigger               // entering trigger_write: about to compare-and-swap the token
    | Swapping              // has the token: about to look at the buffers under the lock
    | Submitting            // has the token: about to submit the active buffer
    | Quitting              // has the token: nothing was submitted, the connection is removed
    | Clearing              // has the token: both buffers were empty
    | Rechecking            // token cleared: about to look at the buffers again under the lock
    | Deferred(mark: nat)   // the close was requested and nothing was pending: about to remove
    | Completed(n: nat)     // has the token: about to drop n written bytes from the active buffer
    | Retrying              // has the token: about to clear it and trigger again
    | Failing               // has the token: the write failed, about to remove

  /** Who answers for a set token. */
  datatype Owner = NoOne | Kernel | Dropped | Running(t: Thread)

  /**
   The connection's fields. `queued` and `written` record all bytes ever queued and all bytes the proactor
   reported written, the last `ahead` of which are still in the active buffer; `closeMark` the length of
   `queued` at the first close request; `lateData` that bytes were queued after it.
   */
  datatype Shared = Shared(
    writeBuffer: seq<byte>, active: seq<byte>, isWriting: bool, outstanding: bool, closeAfter: bool, removed: bool,
    owner: Owner, queued: seq<byte>, written: seq<byte>, ahead: nat, closeMark: nat, lateData: bool)

  datatype System = System(fields: Shared, pcs: map<Thread, Pc>)

  const INIT := System(Shared([], [], false, false, false, false, NoOne, [], [], 0, 0, false), map[])

  datatype Completion = WouldBlock | Failure | Bytes(n: nat)

  datatype Choice =
    | SendData(t: Thread, data: seq<byte>, closeAfter: bool)  // send_data, write_raw, mark_for_close
    | Step(t: Thread)                                         // the next atomic step of thread t
    | Complete(t: Thread, result: Completion)                 // the proactor calls back on thread t
    | Remove                                                  // a timeout or a read error
    | Cancel                                                  // the proactor forgets a removed socket

  function PcOf(s: System, t: Thread): Pc {
    if t in s.pcs then s.pcs[t] else Idle
  }

  // ---------- Atomic steps: new fields and new program counter of the thread that moves ----------

  /** The critical section of send_data. */
  function Append(f: Shared, data: seq<byte>, closeAfter: bool): (Shared, Pc) {
    (f.(writeBuffer := f.writeBuffer + data,
        queued := f.queued + data,
        closeAfter := f.closeAfter || closeAfter,
        closeMark := if closeAfter && !f.closeAfter then |f.queued| + |data| else f.closeMark,
        lateData := f.lateData || (f.closeAfter && data != [])),
     Trigger)
  }

  /** trigger_write, has_pending_output, on_write_complete and remove_connection, one step at a time. */
  function Advance(f: Shared, pc: Pc, t: Thread): (Shared, Pc) {
    match pc
    case Idle => (f, Idle)
    case Trigger =>
      if f.isWriting then (f, Idle) else (f.(isWriting := true, owner := Running(t)), Swapping)
    case Swapping =>
      var moves := f.active == [] && f.writeBuffer != [];
      var f1 := if moves then f.(active := f.writeBuffer, writeBuffer := []) else f;
      (f1, if f1.active != [] then Submitting else Clearing)
    case Submitting =>
      if f.removed then (f, Quitting) else (f.(outstanding := true, owner := Kernel), Idle)
    case Quitting => (f.(isWriting := false, owner := NoOne), Idle)
    case Clearing => (f.(isWriting := false, owner := NoOne), Rechecking)
    case Rechecking =>
      if f.writeBuffer != [] || f.active != [] then (f, Trigger)
      else (f, if f.closeAfter then Deferred(|f.queued|) else Idle)
    case Deferred(_) => (f.(removed := true), Idle)
    case Completed(n) =>
      var k := if n <= |f.active| then n else |f.active|;
      (f.(active := f.active[k..], ahead := 0), Retrying)
    case Retrying => (f.(isWriting := false, owner := NoOne), Trigger)
    case Failing => (f.(removed := true, owner := Dropped), Idle)
  }

  /** The proactor never reports more bytes than it was given. */
  predicate Possible(f: Shared, result: Completion) {
    f.outstanding && (result.Bytes? ==> 1 <= result.n <= |f.active|)
  }

  function CallBack(f: Shared, t: Thread, result: Completion): (Shared, Pc) {
    (f.(outstanding := false, owner := Running(t),
        written := if result.Bytes? && result.n <= |f.active| then f.written + f.active[..result.n] else f.written,
        ahead := if result.Bytes? then result.n else 0),
     match result
     case WouldBlock => Retrying
     case Failure => Failing
     case Bytes(n) => Completed(n))
  }

  /** The move of thread c.t under choice c; a choice that is not possible now does nothing. */
  function Move(f: Shared, pc: Pc, c: Choice): (Shared, Pc)
    requires c.SendData? || c.Step? || c.Complete?
  {
    match c
    case SendData(t, data, close) => if pc.Idle? then Append(f, data, close) else (f, pc)
    case Step(t) => Advance(f, pc, t)
    case Complete(t, result) => if pc.Idle? && Possible(f, result) then CallBack(f, t, result) else (f, pc)
  }

  function Next(s: System, c: Choice): System {
    match c
    case Remove => s.(fields := s.fields.(removed := true))
    case Cancel =>
      if s.fields.removed && s.fields.outstanding
      then s.(fields := s.fields.(outstanding := false, owner := Dropped))
      else s
    case _ =>
      var (f, pc) := Move(s.fields, PcOf(s, c.t), c);
      System(f, s.pcs[c.t := pc])
  }

  function Execute(s: System, choices: seq<Choice>): System
    decreases |choices|
  {
    if choices == [] then s else Execute(Next(s, choices[0]), choices[1..])
  }

  // ---------- What every step keeps ----------

  predicate HoldsToken(pc: Pc) {
    pc.Swapping? || pc.Submitting? || pc.Quitting? || pc.Clearing? || pc.Completed? || pc.Retrying? || pc.Failing?
  }

  ghost predicate Pending(f: Shared) {
    f.active != [] || f.writeBuffer != []
  }

  /** There is output to write, or a close to carry out. */
  ghost predicate Unfinished(f: Shared) {
    Pending(f) || f.closeAfter
  }

  /** What holds of the fields alone. */
  ghost predicate Global(f: Shared) {
    // Wire order: what was written, what is in flight and what waits is what was queued.
    && f.ahead <= |f.active| && f.queued == f.written + (f.active[f.ahead..] + f.writeBuffer)
    && (!f.owner.Running? ==> f.ahead == 0)
    // The token is set exactly when someone answers for it.
    && (f.outstanding <==> f.owner == Kernel)
    && (f.isWriting <==> f.owner != NoOne)
    && (f.owner == Dropped ==> f.removed)
    && (f.outstanding ==> f.active != [])
    // Bytes behind the close request are late.
    && (f.closeAfter ==> f.closeMark <= |f.queued|)
    && (f.lateData <==> f.closeAfter && |f.queued| > f.closeMark)
  }

  /** What holds of the fields while thread t is at pc. */
  ghost predicate Local(f: Shared, pc: Pc, t: Thread) {
    && (HoldsToken(pc) <==> f.owner == Running(t))
    && (HoldsToken(pc) ==> f.ahead == if pc.Completed? then pc.n else 0)
    && (pc.Quitting? ==> f.removed)
    && (pc.Submitting? || pc.Failing? ==> f.active != [])
    && (pc.Completed? ==> 1 <= pc.n <= |f.active|)
    && (pc.Deferred? ==> f.closeAfter && f.closeMark <= pc.mark <= |f.written|)
  }

  ghost predicate Busy(s: System, t: Thread) {
    !PcOf(s, t).Idle?
  }

  ghost predicate Inv(s: System) {
    && Global(s.fields)
    && (forall t :: Local(s.fields, PcOf(s, t), t))
    // Unwritten output of a live connection, or its close, always has someone at work on it.
    && (Unfinished(s.fields) && !s.fields.removed ==> s.fields.outstanding || exists t :: Busy(s, t))
  }

  lemma CompletedKeeps(f: Shared, pc: Pc, t: Thread)
    requires Global(f) && Local(f, pc, t) && pc.Completed?
    ensures var (f', pc') := Advance(f, pc, t); Global(f') && Local(f', pc', t)
  {
    assert f.active == f.active[..pc.n] + f.active[pc.n..];
  }

  lemma SwappingKeeps(f: Shared, pc: Pc, t: Thread)
    requires Global(f) && Local(f, pc, t) && pc.Swapping?
    ensures var (f', pc') := Advance(f, pc, t); Global(f') && Local(f', pc', t)
  {
    assert f.active == [] ==> f.active + f.writeBuffer == f.writeBuffer + [];
  }

  lemma AdvanceKeeps(f: Shared, pc: Pc, t: Thread)
    requires Global(f) && Local(f, pc, t)
    ensures var (f', pc') := Advance(f, pc, t); Global(f') && Local(f', pc', t)
  {
    if pc.Completed? {
      CompletedKeeps(f, pc, t);
    } else if pc.Swapping? {
      SwappingKeeps(f, pc, t);
    }
  }

  lemma MoveKeeps(f: Shared, pc: Pc, c: Choice)
    requires c.SendData? || c.Step? || c.Complete?
    requires Global(f) && Local(f, pc, c.t)
    ensures var (f', pc') := Move(f, pc, c); Global(f') && Local(f', pc', c.t)
  {
    if c.Step? {
      AdvanceKeeps(f, pc, c.t);
    }
  }

  /** No move of one thread breaks what holds of another. */
  lemma NoInterference(f: Shared, pc: Pc, c: Choice, pcu: Pc, u: Thread)
    requires c.SendData? || c.Step? || c.Complete?
    requires Global(f) && Local(f, pc, c.t) && Local(f, pcu, u) && u != c.t
    ensures Local(Move(f, pc, c).0, pcu, u)
  {
  }

  /** A thread leaves work behind only to the kernel, to another owner of the token, or on a removed connection. */
  lemma WorkHandedOver(f: Shared, pc: Pc, c: Choice)
    requires c.SendData? || c.Step? || c.Complete?
    requires Global(f) && Local(f, pc, c.t)
    ensures var (f', pc') := Move(f, pc, c);
            Unfinished(f') && !f'.removed && !f'.outstanding && pc'.Idle? ==>
              (pc.Idle? && f' == f) || (f.owner.Running? && f.owner.t != c.t)
  {
  }

  lemma MoveKeepsInv(s: System, c: Choice)
    requires c.SendData? || c.Step? || c.Complete?
    requires Inv(s)
    ensures Inv(Next(s, c))
  {
    hide Global, Local, Unfinished, Move;
    var f, pc := s.fields, PcOf(s, c.t);
    var s' := Next(s, c);
    var f' := s'.fields;
    assert Local(f, pc, c.t);
    MoveKeeps(f, pc, c);
    forall u
      ensures Local(f', PcOf(s', u), u)
    {
      if u != c.t {
        NoInterference(f, pc, c, PcOf(s, u), u);
      }
    }
    WorkHandedOver(f, pc, c);
    if Unfinished(f') && !f'.removed && !f'.outstanding {
      if PcOf(s', c.t).Idle? && f.owner.Running? && f.owner.t != c.t {
        OwnerIsBusy(f, PcOf(s, f.owner.t), f.owner.t);
        assert Busy(s', f.owner.t);
      } else if PcOf(s', c.t).Idle? {
        var u :| Busy(s, u);
        assert Busy(s', u);
      } else {
        assert Busy(s', c.t);
      }
    }
  }

  lemma OwnerIsBusy(f: Shared, pc: Pc, t: Thread)
    requires Local(f, pc, t) && f.owner == Running(t)
    ensures !pc.Idle?
  {
  }

  lemma NextKeeps(s: System, c: Choice)
    requires Inv(s)
    ensures Inv(Next(s, c))
  {
    if c.Remove? || c.Cancel? {
      var s' := Next(s, c);
      forall u
        ensures Local(s'.fields, PcOf(s', u), u)
      {
        assert Local(s.fields, PcOf(s, u), u);
      }
      if !s'.fields.removed {
        assert s' == s;
      }
    } else {
      MoveKeepsInv(s, c);
    }
  }

  lemma {:induction false} ExecuteKeeps(s: System, choices: seq<Choice>)
    requires Inv(s)
    ensures Inv(Execute(s, choices))
    decreases |choices|
  {
    hide Inv, Next;
    if choices != [] {
      NextKeeps(s, choices[0]);
      ExecuteKeeps(Next(s, choices[0]), choices[1..]);
    }
  }

  lemma Reachable(choices: seq<Choice>)
    ensures Inv(Execute(INIT, choices))
  {
    ExecuteKeeps(INIT, choices);
  }

  lemma InvParts(s: System, t: Thread)
    requires Inv(s)
    ensures Global(s.fields) && Local(s.fields, PcOf(s, t), t)
  {
  }

  // ---------- The promises ----------

  /** The bytes that calls of send_data queue, in the order in which they take the lock. */
  function Sends(s: System, choices: seq<Choice>): seq<byte>
    decreases |choices|
  {
    if choices == [] then []
    else
      var c := choices[0];
      (if c.SendData? && PcOf(s, c.t).Idle? then c.data else []) + Sends(Next(s, c), choices[1..])
  }

  lemma MoveQueues(f: Shared, pc: Pc, c: Choice)
    requires c.SendData? || c.Step? || c.Complete?
    ensures Move(f, pc, c).0.queued == if c.SendData? && pc.Idle? then f.queued + c.data else f.queued
  {
  }

  lemma NextQueues(s: System, c: Choice)
    ensures Next(s, c).fields.queued ==
            s.fields.queued + if c.SendData? && PcOf(s, c.t).Idle? then c.data else []
  {
    hide Move;
    assert s.fields.queued + [] == s.fields.queued;
    if c.SendData? || c.Step? || c.Complete? {
      MoveQueues(s.fields, PcOf(s, c.t), c);
    }
  }

  lemma {:induction false} QueuedIsSent(s: System, choices: seq<Choice>)
    ensures Execute(s, choices).fields.queued == s.fields.queued + Sends(s, choices)
    decreases |choices|
  {
    hide Next;
    if choices != [] {
      var c := choices[0];
      NextQueues(s, c);
      QueuedIsSent(Next(s, c), choices[1..]);
      AppendAssoc(s.fields.queued, if c.SendData? && PcOf(s, c.t).Idle? then c.data else [],
                  Sends(Next(s, c), choices[1..]));
    }
  }

  /** The bytes of the active buffer that are not reported written. */
  function InFlight(s: System, t: Thread): seq<byte> {
    var pc := PcOf(s, t);
    if pc.Completed? && pc.n <= |s.fields.active| then s.fields.active[pc.n..] else s.fields.active
  }

  /**
   Wire order: in every interleaving, the bytes the proactor reported written, those in flight and those
   waiting are the bytes sent, in order and each once. While a thread is about to drop n written bytes, the
   ones in flight are those behind them.
   */
  lemma WireOrder(choices: seq<Choice>)
    ensures var s := Execute(INIT, choices);
            && s.fields.written <= Sends(INIT, choices)
            && ((forall t :: !PcOf(s, t).Completed?) ==>
                  Sends(INIT, choices) == s.fields.written + s.fields.active + s.fields.writeBuffer)
            && (forall t :: PcOf(s, t).Completed? ==>
                  && 1 <= PcOf(s, t).n <= |s.fields.active|
                  && Sends(INIT, choices) == s.fields.written + InFlight(s, t) + s.fields.writeBuffer)
  {
    Reachable(choices);
    QueuedIsSent(INIT, choices);
    assert [] + Sends(INIT, choices) == Sends(INIT, choices);
    var s := Execute(INIT, choices);
    var f := s.fields;
    if forall t :: !PcOf(s, t).Completed? {
      NothingAhead(s);
      assert f.active[0..] == f.active;
      AppendAssoc(f.written, f.active, f.writeBuffer);
    }
    forall t | PcOf(s, t).Completed?
      ensures 1 <= PcOf(s, t).n <= |f.active| && f.queued == f.written + InFlight(s, t) + f.writeBuffer
    {
      InvParts(s, t);
      AppendAssoc(f.written, InFlight(s, t), f.writeBuffer);
    }
  }

  /** Only between a completion and the step that drops its bytes is anything reported still held. */
  lemma NothingAhead(s: System)
    requires Inv(s) && forall t :: !PcOf(s, t).Completed?
    ensures s.fields.ahead == 0
  {
    if s.fields.owner.Running? {
      InvParts(s, s.fields.owner.t);
    }
  }

  // ---------- The close request ----------

  lemma NextKeepsMark(s: System, c: Choice)
    requires s.fields.closeAfter
    ensures Next(s, c).fields.closeAfter && Next(s, c).fields.closeMark == s.fields.closeMark
  {
  }

  lemma {:induction false} MarkStays(s: System, more: seq<Choice>)
    requires s.fields.closeAfter
    ensures Execute(s, more).fields.closeAfter && Execute(s, more).fields.closeMark == s.fields.closeMark
    decreases |more|
  {
    hide Next;
    if more != [] {
      NextKeepsMark(s, more[0]);
      MarkStays(Next(s, more[0]), more[1..]);
    }
  }

  /** The first send that asks for a close marks the end of its own bytes, for good; bytes behind it are late. */
  lemma ClosePoint(choices: seq<Choice>, t: Thread, data: seq<byte>, more: seq<Choice>)
    requires var s := Execute(INIT, choices); !s.fields.closeAfter && PcOf(s, t).Idle?
    ensures var s := Execute(INIT, choices);
            var f := Execute(Next(s, SendData(t, data, true)), more).fields;
            && f.closeAfter && f.closeMark == |Sends(INIT, choices)| + |data|
            && (f.lateData <==> |f.queued| > f.closeMark)
  {
    var s := Execute(INIT, choices);
    var s1 := Next(s, SendData(t, data, true));
    Reachable(choices);
    QueuedIsSent(INIT, choices);
    assert s1.fields.closeAfter && s1.fields.closeMark == |s.fields.queued| + |data|;
    MarkStays(s1, more);
    NextKeeps(s, SendData(t, data, true));
    ExecuteKeeps(s1, more);
  }

  /** The token is set exactly while one thread, or the outstanding write, or a removal answers for it. */
  lemma TokenHasOneOwner(choices: seq<Choice>)
    ensures var s := Execute(INIT, choices);
            && (forall t, u :: HoldsToken(PcOf(s, t)) && HoldsToken(PcOf(s, u)) ==> t == u)
            && (forall t :: HoldsToken(PcOf(s, t)) ==> s.fields.isWriting && !s.fields.outstanding)
            && (s.fields.outstanding ==> s.fields.isWriting)
            && (s.fields.isWriting && !s.fields.removed ==>
                  s.fields.outstanding || exists t :: HoldsToken(PcOf(s, t)))
  {
    Reachable(choices);
    var s := Execute(INIT, choices);
    forall t, u | HoldsToken(PcOf(s, t)) && HoldsToken(PcOf(s, u))
      ensures t == u
    {
      assert Local(s.fields, PcOf(s, t), t) && Local(s.fields, PcOf(s, u), u);
    }
    forall t | HoldsToken(PcOf(s, t))
      ensures s.fields.isWriting && !s.fields.outstanding
    {
      assert Local(s.fields, PcOf(s, t), t);
    }
    if s.fields.owner.Running? {
      assert Local(s.fields, PcOf(s, s.fields.owner.t), s.fields.owner.t);
      assert HoldsToken(PcOf(s, s.fields.owner.t));
    }
  }

  /**
   No lost wake-up: once every thread is idle and no write is outstanding, a live connection has written all
   and no requested close is forgotten.
   */
  lemma NoOutputLost(choices: seq<Choice>)
    requires var s := Execute(INIT, choices);
             !s.fields.outstanding && !s.fields.removed && forall t :: !Busy(s, t)
    ensures var f := Execute(INIT, choices).fields;
            f.active == f.writeBuffer == [] && f.written == f.queued == Sends(INIT, choices) && !f.closeAfter
  {
    Reachable(choices);
    QueuedIsSent(INIT, choices);
    assert [] + Sends(INIT, choices) == Sends(INIT, choices);
  }

  /**
   A deferred removal comes only after every byte that was queued when its thread looked again is written:
   at least those up to and with the close request, and all of them if none came after that look.
   */
  lemma CloseAfterLastByte(choices: seq<Choice>, t: Thread)
    requires PcOf(Execute(INIT, choices), t).Deferred?
    ensures var f := Execute(INIT, choices).fields;
            var mark := PcOf(Execute(INIT, choices), t).mark;
            && f.closeAfter && f.closeMark <= mark <= |f.written| <= |f.queued|
            && f.written == f.queued[..|f.written|]
            && (|f.queued| == mark ==> f.written == f.queued)
            && (!f.lateData ==> |f.queued| == mark)
  {
    Reachable(choices);
    var s := Execute(INIT, choices);
    assert Local(s.fields, PcOf(s, t), t);
  }

  // ---------- What a completion leads to ----------

  function Steps(s: System, t: Thread, n: nat): System
    decreases n
  {
    if n == 0 then s else Steps(Next(s, Step(t)), t, n - 1)
  }

  /** While a write is under way a sender only queues, and returns: whoever has the token will see its bytes. */
  lemma SenderReturns(s: System, t: Thread, data: seq<byte>, close: bool)
    requires s.fields.isWriting && PcOf(s, t).Idle?
    ensures var s' := Steps(Next(s, SendData(t, data, close)), t, 1);
            && PcOf(s', t).Idle? && s'.fields.writeBuffer == s.fields.writeBuffer + data
            && s'.fields.active == s.fields.active && s'.fields.isWriting && s'.fields.owner == s.fields.owner
  {
    var s1 := Next(s, SendData(t, data, close));
    assert Steps(s1, t, 1) == Next(s1, Step(t));
  }

  /** A removal is for good, and the proactor then forgets an outstanding write without reporting any of it. */
  lemma RemovalForgets(s: System)
    ensures var f := Next(s, Remove).fields;
            && f == s.fields.(removed := true)
            && !Next(Next(s, Remove), Cancel).fields.outstanding
            && Next(Next(s, Remove), Cancel).fields.written == s.fields.written
  {
  }

  /** A failed write removes the connection. */
  lemma FailureRemoves(s: System, t: Thread)
    requires s.fields.outstanding && PcOf(s, t).Idle?
    ensures var s' := Steps(Next(s, Complete(t, Failure)), t, 1);
            s'.fields.removed && s'.fields.written == s.fields.written && PcOf(s', t).Idle?
  {
  }

  /** A write that would block is submitted again, all of it, by the thread it completes on if nobody is in between. */
  lemma WouldBlockResubmits(s: System, t: Thread)
    requires Inv(s) && s.fields.outstanding && !s.fields.removed && PcOf(s, t).Idle?
    ensures var f := Steps(Next(s, Complete(t, WouldBlock)), t, 4).fields;
            f.outstanding && !f.removed && f.active == s.fields.active && f.written == s.fields.written
  {
    hide Inv;
    InvParts(s, t);
    var s1 := Next(s, Complete(t, WouldBlock));
    var s2 := Next(s1, Step(t));
    var s3 := Next(s2, Step(t));
    var s4 := Next(s3, Step(t));
    assert Steps(s4, t, 1) == Next(s4, Step(t));
    assert Steps(s1, t, 4) == Steps(s2, t, 3) == Steps(s3, t, 2) == Steps(s4, t, 1);
  }

  /** A partial write is followed by one of exactly the bytes that are left. */
  lemma PartialWriteGoesOn(s: System, t: Thread, n: nat)
    requires Inv(s) && s.fields.outstanding && !s.fields.removed && PcOf(s, t).Idle? && 1 <= n < |s.fields.active|
    ensures var f := Steps(Next(s, Complete(t, Bytes(n))), t, 5).fields;
            && f.outstanding && !f.removed && f.active == s.fields.active[n..]
            && f.written == s.fields.written + s.fields.active[..n]
  {
    hide Inv;
    InvParts(s, t);
    var s1 := Next(s, Complete(t, Bytes(n)));
    var s2 := Next(s1, Step(t));
    var s3 := Next(s2, Step(t));
    var s4 := Next(s3, Step(t));
    var s5 := Next(s4, Step(t));
    assert Steps(s5, t, 1) == Next(s5, Step(t));
    assert Steps(s1, t, 5) == Steps(s2, t, 4) == Steps(s3, t, 3) == Steps(s4, t, 2) == Steps(s5, t, 1);
  }

  // ---------- After the removal ----------

  /** A removed connection of which no byte behind the first `limit` is on its way. */
  ghost predicate Silent(f: Shared, limit: nat) {
    f.removed && |f.written| <= limit && (f.outstanding ==> |f.written| + |f.active| <= limit)
  }

  lemma MoveStaysSilent(f: Shared, pc: Pc, c: Choice, limit: nat)
    requires c.SendData? || c.Step? || c.Complete?
    requires Global(f) && Local(f, pc, c.t) && Silent(f, limit)
    ensures Silent(Move(f, pc, c).0, limit)
  {
  }

  lemma NextStaysSilent(s: System, c: Choice, limit: nat)
    requires Inv(s) && Silent(s.fields, limit)
    ensures Silent(Next(s, c).fields, limit)
  {
    hide Global, Move;
    if c.SendData? || c.Step? || c.Complete? {
      InvParts(s, c.t);
      MoveStaysSilent(s.fields, PcOf(s, c.t), c, limit);
    }
  }

  lemma MoveOnlyAdds(f: Shared, pc: Pc, c: Choice)
    requires c.SendData? || c.Step? || c.Complete?
    ensures f.written <= Move(f, pc, c).0.written && f.queued <= Move(f, pc, c).0.queued
  {
  }

  lemma NextOnlyAdds(s: System, c: Choice)
    ensures s.fields.written <= Next(s, c).fields.written && s.fields.queued <= Next(s, c).fields.queued
  {
    hide Move;
    if c.SendData? || c.Step? || c.Complete? {
      MoveOnlyAdds(s.fields, PcOf(s, c.t), c);
    }
  }

  /** Nothing behind the limit is ever written, whatever follows. */
  lemma {:induction false} StaysSilent(s: System, more: seq<Choice>, limit: nat)
    requires Inv(s) && Silent(s.fields, limit)
    ensures var s' := Execute(s, more);
            && Inv(s') && Silent(s'.fields, limit)
            && s.fields.written <= s'.fields.written && s.fields.queued <= s'.fields.queued
    decreases |more|
  {
    hide Inv, Silent, Next;
    if more != [] {
      NextKeeps(s, more[0]);
      NextStaysSilent(s, more[0], limit);
      NextOnlyAdds(s, more[0]);
      StaysSilent(Next(s, more[0]), more[1..], limit);
    }
  }

  /** In any reachable state, what is queued now is all that can be on its way. */
  lemma SilentBound(f: Shared)
    requires Global(f)
    ensures Silent(f.(removed := true), |f.queued|)
  {
  }

  /** After a removal, what was queued before it is all that may still be reported written, in every continuation. */
  lemma RemovalIsFinal(choices: seq<Choice>, more: seq<Choice>)
    requires Execute(INIT, choices).fields.removed
    ensures var f := Execute(INIT, choices).fields;
            var f' := Execute(Execute(INIT, choices), more).fields;
            f'.removed && f.written <= f'.written <= f.queued <= f'.queued
  {
    Reachable(choices);
    var s := Execute(INIT, choices);
    assert s.fields == s.fields.(removed := true);
    SilentBound(s.fields);
    StaysSilent(s, more, |s.fields.queued|);
    WrittenIsPrefix(Execute(s, more));
    PrefixOf(Execute(s, more).fields.written, s.fields.queued, Execute(s, more).fields.queued);
  }

  /** A late send, and then the removal it was too late for. */
  function SendThenRemove(s: System, t: Thread, u: Thread, data: seq<byte>): System {
    Next(Next(s, SendData(u, data, false)), Step(t))
  }

  lemma SendThenRemoveIs(s: System, t: Thread, u: Thread, data: seq<byte>)
    requires Inv(s) && PcOf(s, t).Deferred? && PcOf(s, u).Idle?
    ensures var s' := SendThenRemove(s, t, u, data);
            && Inv(s') && Silent(s'.fields, |s.fields.queued|)
            && s'.fields.queued == s.fields.queued + data && s'.fields.written == s.fields.written
  {
    hide Inv;
    var s1 := Next(s, SendData(u, data, false));
    assert PcOf(s1, t) == PcOf(s, t);
    NextKeeps(s, SendData(u, data, false));
    NextKeeps(s1, Step(t));
    InvParts(s, t);
    SilentBound(s.fields);
  }

  /**
   Bytes queued between a thread's last look and its deferred removal are never written, in any
   continuation; if it had seen everything there was before them, not another byte is.
   */
  lemma LateBytesAreLost(choices: seq<Choice>, t: Thread, u: Thread, data: seq<byte>, more: seq<Choice>)
    requires var s := Execute(INIT, choices); PcOf(s, t).Deferred? && PcOf(s, u).Idle?
    ensures var s := Execute(INIT, choices);
            var f := Execute(SendThenRemove(s, t, u, data), more).fields;
            && f.removed && s.fields.queued + data <= f.queued
            && s.fields.written <= f.written <= s.fields.queued
            && (|s.fields.queued| == PcOf(s, t).mark ==> f.written == s.fields.queued)
  {
    hide Inv, Next;
    var s := Execute(INIT, choices);
    Reachable(choices);
    CloseAfterLastByte(choices, t);
    SendThenRemoveIs(s, t, u, data);
    var s' := SendThenRemove(s, t, u, data);
    StaysSilent(s', more, |s.fields.queued|);
    WrittenIsPrefix(Execute(s', more));
    WrittenIsPrefix(s);
    PrefixOf(Execute(s', more).fields.written, s.fields.queued, Execute(s', more).fields.queued);
  }

  lemma WrittenIsPrefix(s: System)
    requires Inv(s)
    ensures s.fields.written <= s.fields.queued
  {
  }

  lemma PrefixOf(a: seq<byte>, b: seq<byte>, whole: seq<byte>)
    requires a <= whole && b <= whole && |a| <= |b|
    ensures a <= b
  {
  }

  // ---------- Every close can lose bytes ----------

  /** Nothing more is queued. */
  ghost predicate AllQuiet(choices: seq<Choice>) {
    forall i :: 0 <= i < |choices| ==> !choices[i].SendData?
  }

  /** A live connection with a close requested and nothing queued behind the request. */
  ghost predicate Closing(f: Shared) {
    !f.removed && f.closeAfter && !f.lateData
  }

  /** Thread t alone can take the connection on: it has the token or may take it, or the write is its to complete. */
  ghost predicate Drives(f: Shared, pc: Pc, t: Thread) {
    && !pc.Failing?
    && (HoldsToken(pc) || (pc.Idle? && f.outstanding) || (f.owner == NoOne && (pc.Trigger? || pc.Rechecking?)))
  }

  /** How far a driving thread is from the deferred removal, bytes left apart. */
  function Distance(pc: Pc, pending: bool): nat {
    match pc
    case Clearing => if pending then 8 else 3
    case Rechecking => if pending then 7 else 2
    case Retrying => 6
    case Trigger => 5
    case Swapping => 4
    case Submitting => 3
    case Idle => 2
    case Completed(_) => 1
    case _ => 0
  }

  function Left(f: Shared): nat {
    |f.active| + |f.writeBuffer|
  }

  /** What the driving thread does next. */
  function Drive(f: Shared, pc: Pc, t: Thread): Choice {
    if pc.Idle? then Complete(t, Bytes(|f.active|)) else Step(t)
  }

  lemma DriveMove(f: Shared, pc: Pc, t: Thread)
    requires Global(f) && Local(f, pc, t) && Closing(f) && Drives(f, pc, t)
    ensures var (f', pc') := Move(f, pc, Drive(f, pc, t));
            && Closing(f') && f'.queued == f.queued
            && (!pc'.Deferred? ==>
                  Drives(f', pc', t) &&
                  (Left(f') < Left(f) ||
                   (Left(f') == Left(f) && Distance(pc', Left(f') > 0) < Distance(pc, Left(f) > 0))))
  {
  }

  lemma {:induction false} DriveHome(s: System, t: Thread) returns (run: seq<Choice>)
    requires Inv(s) && Closing(s.fields) && Drives(s.fields, PcOf(s, t), t)
    ensures AllQuiet(run)
    ensures var s' := Execute(s, run);
            Inv(s') && PcOf(s', t).Deferred? && Closing(s'.fields) && s'.fields.queued == s.fields.queued
    decreases Left(s.fields), Distance(PcOf(s, t), Left(s.fields) > 0)
  {
    hide Inv, Global, Local, Closing, Drives, Left, Distance, Move, HoldsToken;
    var c := Drive(s.fields, PcOf(s, t), t);
    InvParts(s, t);
    DriveMove(s.fields, PcOf(s, t), t);
    NextKeeps(s, c);
    var s1 := Next(s, c);
    if PcOf(s1, t).Deferred? {
      run := [c];
      assert run[1..] == [];
    } else {
      var rest := DriveHome(s1, t);
      run := [c] + rest;
      assert run[1..] == rest;
    }
  }

  /** There is always a thread with nothing to do. */
  lemma IdleThread(s: System) returns (t: Thread)
    ensures PcOf(s, t).Idle?
  {
    t := Above(s.pcs.Keys);
    assert t in s.pcs.Keys ==> t < t;
  }

  lemma {:induction false} Above(ts: set<Thread>) returns (t: Thread)
    ensures forall u :: u in ts ==> u < t
    decreases |ts|
  {
    t := 0;
    if ts != {} {
      var u :| u in ts;
      var v := Above(ts - {u});
      t := if u < v then v else u + 1;
      assert forall w :: w in ts ==> w == u || w in ts - {u};
    }
  }

  ghost predicate SomeFails(s: System) {
    exists t :: PcOf(s, t).Failing?
  }

  lemma SomeoneDrives(s: System) returns (t: Thread)
    requires Inv(s) && Closing(s.fields) && !SomeFails(s)
    ensures Drives(s.fields, PcOf(s, t), t) || PcOf(s, t).Deferred?
  {
    if s.fields.outstanding {
      t := IdleThread(s);
    } else if s.fields.owner.Running? {
      t := s.fields.owner.t;
      InvParts(s, t);
    } else {
      t :| Busy(s, t);
      InvParts(s, t);
    }
  }

  /** A write that failed with bytes left, or the removal that follows it. */
  ghost predicate Broken(s: System) {
    && s.fields.active != []
    && (s.fields.owner == Dropped || (s.fields.owner.Running? && PcOf(s, s.fields.owner.t).Failing?))
  }

  lemma QuietStaysBroken(s: System, c: Choice)
    requires Inv(s) && Broken(s) && !s.fields.lateData && s.fields.closeAfter && !c.SendData?
    ensures Broken(Next(s, c)) && !Next(s, c).fields.lateData && Next(s, c).fields.closeAfter
  {
    if c.Step? || c.Complete? {
      InvParts(s, c.t);
    }
  }

  lemma {:induction false} BrokenNeverDefers(s: System, run: seq<Choice>, t: Thread)
    requires Inv(s) && Broken(s) && !s.fields.lateData && s.fields.closeAfter && AllQuiet(run)
    ensures !PcOf(Execute(s, run), t).Deferred?
    decreases |run|
  {
    if run == [] {
      InvParts(s, t);
    } else {
      hide Inv, Broken, Next;
      QuietStaysBroken(s, run[0]);
      NextKeeps(s, run[0]);
      BrokenNeverDefers(Next(s, run[0]), run[1..], t);
    }
  }

  /** The run queues nothing and brings thread t to the deferred removal of a connection that is still live. */
  ghost predicate Defers(s: System, run: seq<Choice>, t: Thread) {
    AllQuiet(run) && PcOf(Execute(s, run), t).Deferred? && !Execute(s, run).fields.removed
  }

  /**
   Every close can lose bytes: from a live state with a close requested and nothing queued behind it, some
   schedule without new data reaches the deferred removal if and only if no write has just failed.
   */
  lemma CloseCanDefer(choices: seq<Choice>)
    requires Closing(Execute(INIT, choices).fields)
    ensures var s := Execute(INIT, choices);
            (exists run, t :: Defers(s, run, t)) <==> !SomeFails(s)
  {
    var s := Execute(INIT, choices);
    Reachable(choices);
    if SomeFails(s) {
      var t :| PcOf(s, t).Failing?;
      InvParts(s, t);
      forall run, u | AllQuiet(run)
        ensures !PcOf(Execute(s, run), u).Deferred?
      {
        BrokenNeverDefers(s, run, u);
      }
    } else {
      var run, t := DeferredRun(s);
    }
  }

  lemma DeferredRun(s: System) returns (run: seq<Choice>, t: Thread)
    requires Inv(s) && Closing(s.fields) && !SomeFails(s)
    ensures Defers(s, run, t)
    ensures var s' := Execute(s, run);
            Inv(s') && Closing(s'.fields) && s'.fields.queued == s.fields.queued
  {
    hide Inv, Drives, Next;
    t := SomeoneDrives(s);
    if PcOf(s, t).Deferred? {
      run := [];
    } else {
      run := DriveHome(s, t);
    }
  }

  /** And there a late send, by a thread with nothing else to do, is lost for good. */
  lemma EveryCloseCanLoseBytes(choices: seq<Choice>, data: seq<byte>) returns (run: seq<Choice>, t: Thread, u: Thread)
    requires Closing(Execute(INIT, choices).fields) && !SomeFails(Execute(INIT, choices))
    ensures AllQuiet(run) && PcOf(Execute(INIT, choices + run), u).Idle?
    ensures forall more ::
              var f := Execute(Execute(INIT, choices + run + [SendData(u, data, false), Step(t)]), more).fields;
              && f.removed && f.written == Execute(INIT, choices).fields.queued
              && Execute(INIT, choices).fields.queued + data <= f.queued
  {
    hide Next, Inv, Closing, SomeFails;
    Reachable(choices);
    var s := Execute(INIT, choices);
    run, t := DeferredRun(s);
    ExecuteThen(INIT, choices, run);
    var s' := Execute(s, run);
    u := IdleThread(s');
    SeenItAll(choices + run, t);
    LateRun(INIT, choices + run, t, u, data);
    forall more
      ensures var f := Execute(Execute(INIT, choices + run + [SendData(u, data, false), Step(t)]), more).fields;
              && f.removed && f.written == s.fields.queued && s.fields.queued + data <= f.queued
    {
      LateBytesAreLost(choices + run, t, u, data, more);
    }
  }

  lemma SeenItAll(choices: seq<Choice>, t: Thread)
    requires PcOf(Execute(INIT, choices), t).Deferred? && Closing(Execute(INIT, choices).fields)
    ensures |Execute(INIT, choices).fields.queued| == PcOf(Execute(INIT, choices), t).mark
  {
    CloseAfterLastByte(choices, t);
  }

  lemma LateRun(s: System, choices: seq<Choice>, t: Thread, u: Thread, data: seq<byte>)
    ensures Execute(s, choices + [SendData(u, data, false), Step(t)]) ==
            SendThenRemove(Execute(s, choices), t, u, data)
  {
    hide Next;
    var late := [SendData(u, data, false), Step(t)];
    ExecuteThen(s, choices, late);
    assert late[1..][1..] == [] && late[1..][0] == Step(t);
    assert Execute(Execute(s, choices), late) == Execute(Next(Execute(s, choices), late[0]), late[1..]);
  }

  lemma {:induction false} ExecuteThen(s: System, a: seq<Choice>, b: seq<Choice>)
    ensures Execute(s, a + b) == Execute(Execute(s, a), b)
    decreases |a|
  {
    hide Next;
    if a == [] {
      assert a + b == b;
    } else {
      ExecuteThen(Next(s, a[0]), a[1..], b);
      assert (a + b)[0] == a[0] && (a + b)[1..] == a[1..] + b;
    }
  }

  // The smallest run in which a byte queued behind the close request is lost.

  const STEPS: seq<Choice> := [Step(0), Step(0), Step(0)]
  const SUBMIT: seq<Choice> := [SendData(0, [65], true)] + STEPS
  const FINISH: seq<Choice> := [Complete(0, Bytes(1))] + STEPS

  lemma ThreeSteps(s: System)
    ensures Execute(s, STEPS) == Next(Next(Next(s, Step(0)), Step(0)), Step(0))
  {
    hide Next;
    assert STEPS[1..][1..][1..] == [];
  }

  lemma FirstThen(s: System, c: Choice)
    ensures Execute(s, [c] + STEPS) == Execute(Next(s, c), STEPS)
  {
    hide Next;
    assert ([c] + STEPS)[1..] == STEPS;
  }

  lemma OneByteSubmitted()
    ensures Execute(INIT, SUBMIT) ==
            System(Shared([], [65], true, true, true, false, Kernel, [65], [], 0, 1, false), map[0 := Idle])
  {
    FirstThen(INIT, SUBMIT[0]);
    ThreeSteps(Next(INIT, SUBMIT[0]));
  }

  lemma OneByteWritten()
    ensures Execute(INIT, SUBMIT + FINISH) ==
            System(Shared([], [], true, false, true, false, Running(0), [65], [65], 0, 1, false), map[0 := Swapping])
  {
    OneByteSubmitted();
    ExecuteThen(INIT, SUBMIT, FINISH);
    var s := Execute(INIT, SUBMIT);
    FirstThen(s, FINISH[0]);
    ThreeSteps(Next(s, FINISH[0]));
  }

  lemma CloseGetsDeferred()
    ensures var s := Execute(INIT, SUBMIT + FINISH + STEPS);
            PcOf(s, 0) == Deferred(1) && PcOf(s, 1) == Idle && s.fields.queued == [65]
  {
    OneByteWritten();
    ExecuteThen(INIT, SUBMIT + FINISH, STEPS);
    ThreeSteps(Execute(INIT, SUBMIT + FINISH));
  }

  lemma LateByteLostExample(more: seq<Choice>)
    ensures var late := [SendData(1, [66], false), Step(0)];
            var f := Execute(Execute(INIT, SUBMIT + FINISH + STEPS + late), more).fields;
            f.removed && f.written == [65] && [65, 66] <= f.queued
  {
    hide Next;
    CloseGetsDeferred();
    LateBytesAreLost(SUBMIT + FINISH + STEPS, 0, 1, [66], more);
    LateRun(INIT, SUBMIT + FINISH + STEPS, 0, 1, [66]);
  }
}
