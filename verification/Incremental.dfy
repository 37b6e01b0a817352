/**
 Incremental parsers. A parser looks at the bytes buffered so far and either waits for more, stops
 for good, or consumes some bytes and goes on. If what it does once it has stopped waiting never
 depends on bytes behind those it needs, the cut of its input into reads cannot be observed.
 */
module Incremental {
  import opened Bytes

  datatype Outcome<+S> =
    | Wait                          // keep the buffer until more bytes arrive
    | Stop(state: S)                // drop the buffer: the parser is finished or has failed
    | Go(state: S, used: nat)       // consume a prefix and look again

  /** Runs the parser over a buffer: the new state and the bytes left in the buffer. */
  ghost function Loop<S>(step: (S, seq<byte>) -> Outcome<S>, s: S, buffer: seq<byte>): (S, seq<byte>)
    decreases |buffer|
  {
    match step(s, buffer)
    case Wait => (s, buffer)
    case Stop(s') => (s', [])
    case Go(s', used) => if 0 < used <= |buffer| then Loop(step, s', buffer[used..]) else (s', buffer)
  }

  /** A state in which the parser ignores all input. */
  ghost predicate Dead<S>(step: (S, seq<byte>) -> Outcome<S>, s: S) {
    forall input :: step(s, input).Wait?
  }

  ghost predicate StableAt<S(!new)>(step: (S, seq<byte>) -> Outcome<S>, s: S, a: seq<byte>, b: seq<byte>) {
    match step(s, a)
    case Wait => true
    case Stop(s') => step(s, a + b) == Stop(s') && Dead(step, s')
    case Go(s', used) => step(s, a + b) == Go(s', used) && 0 < used <= |a|
  }

  /** More input never changes what the parser does with the input it already has. */
  ghost predicate Stable<S(!new)>(step: (S, seq<byte>) -> Outcome<S>) {
    forall s, a, b :: StableAt(step, s, a, b)
  }

  /** Running on a, then on what is left with b appended, is running on a + b. */
  lemma {:induction false} LoopSplit<S(!new)>(step: (S, seq<byte>) -> Outcome<S>, s: S, a: seq<byte>, b: seq<byte>)
    requires Stable(step)
    ensures var (s1, left1) := Loop(step, s, a);
            var (s2, left2) := Loop(step, s1, left1 + b);
            var (s3, left3) := Loop(step, s, a + b);
            s2 == s3 && (left2 == left3 || Dead(step, s3))
    decreases |a|
  {
    assert StableAt(step, s, a, b);
    match step(s, a)
    case Wait =>
    case Stop(s') =>
      assert step(s', [] + b).Wait?;
    case Go(s', used) =>
      assert (a + b)[used..] == a[used..] + b;
      LoopSplit(step, s', a[used..], b);
  }

  /** A run ends where running again does nothing. */
  lemma {:induction false} LoopSettles<S(!new)>(step: (S, seq<byte>) -> Outcome<S>, s: S, buffer: seq<byte>)
    requires Stable(step)
    ensures var (s1, left) := Loop(step, s, buffer); Loop(step, s1, left) == (s1, left)
    decreases |buffer|
  {
    assert StableAt(step, s, buffer, []);
    match step(s, buffer)
    case Wait =>
    case Stop(s') =>
      assert step(s', []).Wait?;
    case Go(s', used) =>
      LoopSettles(step, s', buffer[used..]);
  }

  /** A reader that appends each piece to the bytes left over and runs the parser. */
  ghost function Feed<S>(
    step: (S, seq<byte>) -> Outcome<S>, s: S, left: seq<byte>, pieces: seq<seq<byte>>): (end: S)
    decreases |pieces|
  {
    if pieces == [] then s
    else var (s1, left1) := Loop(step, s, left + pieces[0]); Feed(step, s1, left1, pieces[1..])
  }

  /** However the input is cut, the reader ends in the state of one run over all of it. */
  lemma {:induction false} FeedIsLoop<S(!new)>(
    step: (S, seq<byte>) -> Outcome<S>, s: S, left: seq<byte>, pieces: seq<seq<byte>>)
    requires Stable(step) && Loop(step, s, left) == (s, left)
    ensures Feed(step, s, left, pieces) == Loop(step, s, left + Concat(pieces)).0
    decreases |pieces|
  {
    if pieces == [] {
      assert left + Concat(pieces) == left;
    } else {
      var (s1, left1) := Loop(step, s, left + pieces[0]);
      LoopSettles(step, s, left + pieces[0]);
      FeedIsLoop(step, s1, left1, pieces[1..]);
      LoopSplit(step, s, left + pieces[0], Concat(pieces[1..]));
      assert left + pieces[0] + Concat(pieces[1..]) == left + Concat(pieces);
    }
  }

  /** In front of any further input, `input` takes the parser from `s` to `s'` and is used up. */
  ghost predicate Consumes<S>(step: (S, seq<byte>) -> Outcome<S>, s: S, input: seq<byte>, s': S) {
    forall rest :: Loop(step, s, input + rest) == Loop(step, s', rest)
  }

  lemma ConsumesAll<S>(step: (S, seq<byte>) -> Outcome<S>, s: S, input: seq<byte>, s': S)
    requires Consumes(step, s, input, s')
    ensures Loop(step, s, input) == Loop(step, s', [])
  {
    assert input + [] == input;
  }

  /** In front of any further input, `input` stops the parser in `s'`. */
  ghost predicate Ends<S>(step: (S, seq<byte>) -> Outcome<S>, s: S, input: seq<byte>, s': S) {
    forall rest :: Loop(step, s, input + rest) == (s', [])
  }

  lemma ConsumesNothing<S>(step: (S, seq<byte>) -> Outcome<S>, s: S)
    ensures Consumes(step, s, [], s)
  {
    forall rest: seq<byte>
      ensures Loop(step, s, [] + rest) == Loop(step, s, rest)
    {
      assert [] + rest == rest;
    }
  }

  lemma ConsumesThen<S>(step: (S, seq<byte>) -> Outcome<S>, s: S, a: seq<byte>, s1: S, b: seq<byte>, s2: S)
    requires Consumes(step, s, a, s1)
    ensures Consumes(step, s1, b, s2) ==> Consumes(step, s, a + b, s2)
    ensures Ends(step, s1, b, s2) ==> Ends(step, s, a + b, s2)
  {
    hide Loop;
    forall rest: seq<byte>
      ensures Loop(step, s, a + b + rest) == Loop(step, s1, b + rest)
    {
      assert a + b + rest == a + (b + rest);
    }
  }

  /** What every step keeps, a run keeps. */
  lemma {:induction false} LoopKeeps<S(!new)>(
    step: (S, seq<byte>) -> Outcome<S>, inv: S -> bool, s: S, buffer: seq<byte>)
    requires inv(s)
    requires forall s, b :: inv(s) && !step(s, b).Wait? ==> inv(step(s, b).state)
    ensures inv(Loop(step, s, buffer).0)
    decreases |buffer|
  {
    match step(s, buffer)
    case Wait =>
    case Stop(s') =>
    case Go(s', used) =>
      if 0 < used <= |buffer| {
        LoopKeeps(step, inv, s', buffer[used..]);
      }
  }
}
