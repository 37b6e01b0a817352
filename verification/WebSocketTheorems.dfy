/**
 What the WebSocket engine promises over whole connections: the cut of the byte stream into pieces
 does not matter, every legal client encoding is reassembled, and closing happens once.
 */
module WebSocketTheorems {
  import opened Bytes
  import opened Collections
  import opened Incremental
  import opened Utf8
  import opened WebSocketFrame
  import opened WebSocketEngine

  // ---------- Split independence ----------

  /** Every way a step stops leaves the connection closed. */
  lemma StopCloses(cfg: Config, s: State, buffer: seq<byte>)
    ensures Step(cfg, s, buffer).Stop? ==> Step(cfg, s, buffer).state.closed
  {
  }

  /** What a step does with a frame does not depend on the bytes behind it. */
  lemma StepStable(cfg: Config, s: State, a: seq<byte>, b: seq<byte>)
    ensures !Step(cfg, s, a).Wait? ==> Step(cfg, s, a + b) == Step(cfg, s, a)
    ensures Step(cfg, s, a).Go? ==> 0 < Step(cfg, s, a).used <= |a|
  {
    hide Inspect, Refusal, OnFrame, Mask;
    if a != [] && !s.closed && !Inspect(a).NeedHeader? {
      InspectStable(a, b);
      InspectBounds(a);
      assert (a + b)[0] == a[0];
      if Inspect(a).Complete? {
        var h := Inspect(a).header;
        SliceStays(a, b, h.headerLength, h.headerLength + h.payloadLength);
      }
    }
  }

  lemma SliceStays(a: seq<byte>, b: seq<byte>, i: nat, j: nat)
    requires i <= j <= |a|
    ensures (a + b)[i..j] == a[i..j]
  {
  }

  lemma StepperStable(cfg: Config)
    ensures Stable(Stepper(cfg))
  {
    forall s, a, b
      ensures StableAt(Stepper(cfg), s, a, b)
    {
      StepStable(cfg, s, a, b);
      StopCloses(cfg, s, a);
    }
  }

  /** The connection's read handler over a sequence of reads, from an empty buffer. */
  ghost function Session(cfg: Config, s: State, pieces: seq<seq<byte>>): State {
    Feed(Stepper(cfg), s, [], pieces)
  }

  /** However the bytes are cut into reads, the state and the whole event log are those of one read. */
  lemma SplitIndependence(cfg: Config, s: State, pieces: seq<seq<byte>>)
    ensures Session(cfg, s, pieces) == Run(cfg, s, Concat(pieces)).0
  {
    StepperStable(cfg);
    FeedIsLoop(Stepper(cfg), s, [], pieces);
    assert [] + Concat(pieces) == Concat(pieces);
  }

  // ---------- One client frame ----------

  /** A whole client frame that the header checks let through takes effect, whatever follows it. */
  lemma StepFrame(cfg: Config, s: State, f: Frame, rest: seq<byte>)
    requires !s.closed && Encodable(f)
    requires Refusal(cfg, s, FirstByte(f), true, |f.payload|).None?
    ensures var s' := OnFrame(cfg, s, f.fin, f.rsv1, f.opcode, f.payload);
            Step(cfg, s, ClientFrame(f) + rest) ==
            if f.opcode == CLOSE || s'.closed then Stop(s') else Go(s', |ClientFrame(f)|)
  {
    var buffer := ClientFrame(f) + rest;
    assert buffer != [] && buffer[0] == FirstByte(f);
    ClientFrameRead(f, rest);
    FirstByteBits(f);
  }

  lemma FrameConsumed(cfg: Config, s: State, f: Frame)
    requires !s.closed && Encodable(f)
    requires Refusal(cfg, s, FirstByte(f), true, |f.payload|).None?
    ensures var s' := OnFrame(cfg, s, f.fin, f.rsv1, f.opcode, f.payload);
            if f.opcode == CLOSE || s'.closed then Ends(Stepper(cfg), s, ClientFrame(f), s')
            else Consumes(Stepper(cfg), s, ClientFrame(f), s')
  {
    forall rest: seq<byte>
      ensures var s' := OnFrame(cfg, s, f.fin, f.rsv1, f.opcode, f.payload);
              Loop(Stepper(cfg), s, ClientFrame(f) + rest) ==
              if f.opcode == CLOSE || s'.closed then (s', []) else Loop(Stepper(cfg), s', rest)
    {
      StepFrame(cfg, s, f, rest);
      assert (ClientFrame(f) + rest)[|ClientFrame(f)|..] == rest;
    }
  }

  /** The frames sections 5.2 and 5.4 of RFC 6455 allow a client here, given the message in progress. */
  ghost predicate InSequence(cfg: Config, s: State, f: Frame) {
    && f.opcode in {CONTINUATION, TEXT, BINARY, CLOSE, PING, PONG}
    && (f.opcode == CONTINUATION ==> s.fragmentOpcode != 0)
    && (f.opcode in {TEXT, BINARY} ==> s.fragmentOpcode == 0)
    && (f.rsv1 ==> cfg.deflateEnabled && f.opcode in {TEXT, BINARY})
  }

  ghost predicate TooBig(cfg: Config, s: State, f: Frame) {
    |f.payload| + (if f.opcode == CONTINUATION then |s.fragmentPayload| else 0) > cfg.maxMessageSize
  }

  /** The header checks refuse exactly the frames out of sequence (1002) and the too big ones (1009). */
  lemma RefusalVerdict(cfg: Config, s: State, f: Frame)
    ensures Refusal(cfg, s, FirstByte(f), true, |f.payload|) ==
            if !InSequence(cfg, s, f) then Some(1002) else if TooBig(cfg, s, f) then Some(1009) else None
  {
    FirstByteBits(f);
  }

  /** A refused frame closes the connection with its code, and nothing behind it is looked at. */
  lemma FrameRefused(cfg: Config, s: State, f: Frame)
    requires !s.closed && Encodable(f) && (!InSequence(cfg, s, f) || TooBig(cfg, s, f))
    ensures Ends(Stepper(cfg), s, ClientFrame(f), Shut(s, if InSequence(cfg, s, f) then 1009 else 1002))
  {
    var s' := Shut(s, if InSequence(cfg, s, f) then 1009 else 1002);
    hide InSequence, TooBig, Shut, Step, ClientFrame, Encodable;
    forall rest: seq<byte>
      ensures Loop(Stepper(cfg), s, ClientFrame(f) + rest) == (s', [])
    {
      StepRefused(cfg, s, f, rest);
    }
  }

  lemma StepRefused(cfg: Config, s: State, f: Frame, rest: seq<byte>)
    requires !s.closed && Encodable(f) && (!InSequence(cfg, s, f) || TooBig(cfg, s, f))
    ensures Step(cfg, s, ClientFrame(f) + rest) == Stop(Shut(s, if InSequence(cfg, s, f) then 1009 else 1002))
  {
    hide InSequence, TooBig, Refusal, Shut, Inspect, Encodable, ClientFrame, OnFrame, Mask;
    StartsWithFirst(f, rest);
    ClientFrameRead(f, rest);
    RefusalVerdict(cfg, s, f);
  }

  lemma StartsWithFirst(f: Frame, rest: seq<byte>)
    ensures ClientFrame(f) + rest != [] && (ClientFrame(f) + rest)[0] == FirstByte(f)
  {
  }

  /** A client frame without a mask closes the connection with 1002 (section 5.1 of RFC 6455). */
  lemma UnmaskedRefused(cfg: Config, s: State, first: byte, payload: seq<byte>)
    requires !s.closed && |payload| < 0x8000_0000_0000_0000
    requires IsControl(first % 16) ==> first >= 128 && |payload| <= 125
    ensures Ends(Stepper(cfg), s, ServerFrame(first, payload), Shut(s, 1002))
  {
    hide Step, Shut, ServerFrame;
    forall rest: seq<byte>
      ensures Loop(Stepper(cfg), s, ServerFrame(first, payload) + rest) == (Shut(s, 1002), [])
    {
      StepUnmasked(cfg, s, first, payload, rest);
    }
  }

  lemma StepUnmasked(cfg: Config, s: State, first: byte, payload: seq<byte>, rest: seq<byte>)
    requires !s.closed && |payload| < 0x8000_0000_0000_0000
    requires IsControl(first % 16) ==> first >= 128 && |payload| <= 125
    ensures Step(cfg, s, ServerFrame(first, payload) + rest) == Stop(Shut(s, 1002))
  {
    hide Inspect, Shut, OnFrame, Mask, LengthField;
    var buffer := ServerFrame(first, payload) + rest;
    assert buffer != [] && buffer[0] == first;
    ServerFrameRead(first, payload, rest);
  }

  /**
   A frame with a reserved bit that no extension gave a meaning, a control frame that is too long or not final, or
   a length that does not fit 63 bits closes the connection with 1002, whatever its payload and what follows.
   */
  lemma MalformedHeaderRefused(
    cfg: Config, s: State, first: byte, maskBit: bool, field: seq<byte>, length: nat, key: seq<byte>, rest: seq<byte>)
    requires !s.closed && LengthForm(field, maskBit, length) && |key| == if maskBit then 4 else 0
    requires || first / 16 % 4 != 0
             || (first % 16 >= 8 && (length > 125 || first < 128))
             || (|field| == 9 && length >= 0x8000_0000_0000_0000)
    ensures Step(cfg, s, [first] + field + (key + rest)) == Stop(Shut(s, 1002))
  {
    hide Inspect, LengthForm, OnFrame, Mask, Shut;
    HeaderRead(first, maskBit, field, length, key, rest);
    assert ([first] + field + (key + rest))[0] == first;
  }

  // ---------- Messages ----------

  /** A ping or an unsolicited pong a client may put between fragments. */
  datatype Control = Control(isPing: bool, key: MaskKey, payload: seq<byte>)

  /** One fragment and the control frames in front of it. */
  datatype Fragment = Fragment(controls: seq<Control>, key: MaskKey, data: seq<byte>)

  datatype ClientMessage = ClientMessage(opcode: Opcode, compressed: bool, fragments: seq<Fragment>)

  /** Control frames carry at most 125 bytes, and the configured limit holds for them too. */
  ghost predicate LegalControls(cfg: Config, cs: seq<Control>) {
    forall i :: 0 <= i < |cs| ==> |cs[i].payload| <= 125 && |cs[i].payload| <= cfg.maxMessageSize
  }

  ghost predicate LegalFragments(cfg: Config, fs: seq<Fragment>) {
    forall i :: 0 <= i < |fs| ==> LegalControls(cfg, fs[i].controls) && |fs[i].data| < 0x8000_0000_0000_0000
  }

  function ControlFrame(c: Control): Frame {
    Frame(true, false, if c.isPing then PING else PONG, c.key, c.payload)
  }

  function ControlBytes(cs: seq<Control>): seq<byte> {
    if cs == [] then [] else ClientFrame(ControlFrame(cs[0])) + ControlBytes(cs[1..])
  }

  /** The fragments on the wire: the opcode and RSV1 on the first, FIN on the last. */
  function FragmentBytes(opcode: Opcode, compressed: bool, fs: seq<Fragment>): seq<byte>
    decreases |fs|
  {
    if fs == [] then []
    else
      ControlBytes(fs[0].controls) +
      ClientFrame(Frame(|fs| == 1, compressed, opcode, fs[0].key, fs[0].data)) +
      FragmentBytes(CONTINUATION, false, fs[1..])
  }

  function Data(fs: seq<Fragment>): seq<byte> {
    if fs == [] then [] else fs[0].data + Data(fs[1..])
  }

  /** The pong that answers a ping, with the ping's own payload. */
  function Answer(c: Control): seq<Event> {
    if c.isPing then [Wrote(ServerFrame(FIN + PONG, c.payload))] else []
  }

  function Answers(cs: seq<Control>): seq<Event> {
    if cs == [] then [] else Answer(cs[0]) + Answers(cs[1..])
  }

  function AllAnswers(fs: seq<Fragment>): seq<Event> {
    if fs == [] then [] else Answers(fs[0].controls) + AllAnswers(fs[1..])
  }

  lemma ControlAccepted(cfg: Config, s: State, c: Control)
    requires |c.payload| <= 125 && |c.payload| <= cfg.maxMessageSize
    ensures Refusal(cfg, s, FirstByte(ControlFrame(c)), true, |c.payload|).None?
  {
    FirstByteBits(ControlFrame(c));
  }

  lemma ControlEffect(cfg: Config, s: State, c: Control)
    requires !s.closed
    ensures var f := ControlFrame(c);
            OnFrame(cfg, s, f.fin, f.rsv1, f.opcode, f.payload) == s.(log := s.log + Answer(c))
  {
    assert s.log + [] == s.log;
  }

  lemma ControlConsumed(cfg: Config, s: State, c: Control)
    requires !s.closed && |c.payload| <= 125 && |c.payload| <= cfg.maxMessageSize
    ensures Consumes(Stepper(cfg), s, ClientFrame(ControlFrame(c)), s.(log := s.log + Answer(c)))
  {
    ControlAccepted(cfg, s, c);
    ControlEffect(cfg, s, c);
    FrameConsumed(cfg, s, ControlFrame(c));
  }

  lemma {:induction false} ControlsConsumed(cfg: Config, s: State, cs: seq<Control>)
    requires !s.closed && LegalControls(cfg, cs)
    ensures Consumes(Stepper(cfg), s, ControlBytes(cs), s.(log := s.log + Answers(cs)))
    decreases |cs|
  {
    hide Step, Stepper, Consumes, ClientFrame, Answer;
    if cs == [] {
      assert s.log + Answers(cs) == s.log;
      ConsumesNothing(Stepper(cfg), s);
    } else {
      var s1 := s.(log := s.log + Answer(cs[0]));
      ControlConsumed(cfg, s, cs[0]);
      ControlsConsumed(cfg, s1, cs[1..]);
      assert s1.log + Answers(cs[1..]) == s.log + Answers(cs);
      ConsumesThen(Stepper(cfg), s, ClientFrame(ControlFrame(cs[0])), s1, ControlBytes(cs[1..]),
                   s.(log := s.log + Answers(cs)));
    }
  }

  /** An open connection with no message in progress. */
  ghost predicate Between(s: State) {
    !s.closed && s.fragmentOpcode == 0 && s.fragmentPayload == [] && !s.fragmentCompressed
  }

  /** `input` leads to `s'`, after which the connection goes on if it is still open. */
  ghost predicate LeadsTo(cfg: Config, s: State, input: seq<byte>, s': State) {
    if s'.closed then Ends(Stepper(cfg), s, input, s') else Consumes(Stepper(cfg), s, input, s')
  }

  lemma LeadsToThen(cfg: Config, s: State, a: seq<byte>, s1: State, b: seq<byte>, s2: State)
    requires !s1.closed && LeadsTo(cfg, s, a, s1) && LeadsTo(cfg, s1, b, s2)
    ensures LeadsTo(cfg, s, a + b, s2)
  {
    ConsumesThen(Stepper(cfg), s, a, s1, b, s2);
  }

  /** A data frame behind the control frames of its fragment. */
  lemma FragmentConsumed(cfg: Config, s: State, controls: seq<Control>, f: Frame)
    requires !s.closed && LegalControls(cfg, controls)
    requires Encodable(f) && f.opcode != CLOSE
    requires Refusal(cfg, s, FirstByte(f), true, |f.payload|).None?
    ensures var s1 := s.(log := s.log + Answers(controls));
            LeadsTo(cfg, s, ControlBytes(controls) + ClientFrame(f),
                    OnFrame(cfg, s1, f.fin, f.rsv1, f.opcode, f.payload))
  {
    var s1 := s.(log := s.log + Answers(controls));
    ControlsConsumed(cfg, s, controls);
    FrameConsumed(cfg, s1, f);
    LeadsToThen(cfg, s, ControlBytes(controls), s1, ClientFrame(f),
                OnFrame(cfg, s1, f.fin, f.rsv1, f.opcode, f.payload));
  }

  /** A continuation frame extends the message in progress, or completes it. */
  lemma ContinuationFrame(cfg: Config, s: State, fragment: Fragment, last: bool)
    requires !s.closed && s.fragmentOpcode != 0 && LegalControls(cfg, fragment.controls) && |fragment.data| < 0x8000_0000_0000_0000
    requires |s.fragmentPayload| + |fragment.data| <= cfg.maxMessageSize
    ensures var log := s.log + Answers(fragment.controls);
            var whole := s.fragmentPayload + fragment.data;
            LeadsTo(cfg, s,
                    ControlBytes(fragment.controls) +
                    ClientFrame(Frame(last, false, CONTINUATION, fragment.key, fragment.data)),
                    if last then
                      Deliver(cfg, State(false, 0, false, [], log), s.fragmentOpcode, s.fragmentCompressed, whole)
                    else s.(log := log, fragmentPayload := whole))
  {
    var f := Frame(last, false, CONTINUATION, fragment.key, fragment.data);
    FirstByteBits(f);
    FragmentConsumed(cfg, s, fragment.controls, f);
  }

  /** A first frame is a whole message, or starts one. */
  lemma FirstFrame(cfg: Config, s: State, fragment: Fragment, opcode: Opcode, compressed: bool, last: bool)
    requires Between(s) && LegalControls(cfg, fragment.controls) && |fragment.data| < 0x8000_0000_0000_0000
    requires (opcode == TEXT || opcode == BINARY) && (compressed ==> cfg.deflateEnabled)
    requires |fragment.data| <= cfg.maxMessageSize
    ensures var log := s.log + Answers(fragment.controls);
            LeadsTo(cfg, s,
                    ControlBytes(fragment.controls) +
                    ClientFrame(Frame(last, compressed, opcode, fragment.key, fragment.data)),
                    if last then Deliver(cfg, s.(log := log), opcode, compressed, fragment.data)
                    else State(false, opcode, compressed, fragment.data, log))
  {
    var f := Frame(last, compressed, opcode, fragment.key, fragment.data);
    FirstByteBits(f);
    FragmentConsumed(cfg, s, fragment.controls, f);
  }

  /** Unfolds one fragment of a message. */
  lemma FragmentUnfold(opcode: Opcode, compressed: bool, fs: seq<Fragment>, log: seq<Event>)
    requires fs != []
    ensures FragmentBytes(opcode, compressed, fs) ==
            ControlBytes(fs[0].controls) +
            ClientFrame(Frame(|fs| == 1, compressed, opcode, fs[0].key, fs[0].data)) +
            FragmentBytes(CONTINUATION, false, fs[1..])
    ensures |fs| == 1 ==>
              && FragmentBytes(opcode, compressed, fs) ==
                 ControlBytes(fs[0].controls) + ClientFrame(Frame(true, compressed, opcode, fs[0].key, fs[0].data))
              && Data(fs) == fs[0].data
              && AllAnswers(fs) == Answers(fs[0].controls)
    ensures log + AllAnswers(fs) == log + Answers(fs[0].controls) + AllAnswers(fs[1..])
  {
  }

  /** The remaining fragments of a message in progress complete it. */
  lemma {:induction false} ContinuationConsumed(cfg: Config, s: State, fs: seq<Fragment>)
    requires !s.closed && s.fragmentOpcode != 0
    requires fs != [] && LegalFragments(cfg, fs)
    requires |s.fragmentPayload| + |Data(fs)| <= cfg.maxMessageSize
    ensures var done := State(false, 0, false, [], s.log + AllAnswers(fs));
            LeadsTo(cfg, s, FragmentBytes(CONTINUATION, false, fs),
                    Deliver(cfg, done, s.fragmentOpcode, s.fragmentCompressed, s.fragmentPayload + Data(fs)))
    decreases |fs|
  {
    hide Step, Deliver, ClientFrame, ControlBytes, AllAnswers;
    ContinuationFrame(cfg, s, fs[0], |fs| == 1);
    FragmentUnfold(CONTINUATION, false, fs, s.log);
    if |fs| > 1 {
      var s2 := s.(log := s.log + Answers(fs[0].controls), fragmentPayload := s.fragmentPayload + fs[0].data);
      ContinuationConsumed(cfg, s2, fs[1..]);
      assert s2.fragmentPayload + Data(fs[1..]) == s.fragmentPayload + Data(fs);
      var done := State(false, 0, false, [], s2.log + AllAnswers(fs[1..]));
      LeadsToThen(cfg, s,
                  ControlBytes(fs[0].controls) + ClientFrame(Frame(false, false, CONTINUATION, fs[0].key, fs[0].data)),
                  s2, FragmentBytes(CONTINUATION, false, fs[1..]),
                  Deliver(cfg, done, s.fragmentOpcode, s.fragmentCompressed, s2.fragmentPayload + Data(fs[1..])));
    }
  }

  /** A message framed as the protocol wants it, in any fragmentation, within the size limit. */
  ghost predicate Framed(cfg: Config, m: ClientMessage) {
    && (m.opcode == TEXT || m.opcode == BINARY)
    && m.fragments != [] && LegalFragments(cfg, m.fragments)
    && |Data(m.fragments)| <= cfg.maxMessageSize
    && (m.compressed ==> cfg.deflateEnabled)
  }

  /** A compressed message has an original, and that is within the size limit too. */
  predicate Inflates(cfg: Config, m: ClientMessage) {
    m.compressed ==>
      var original := cfg.inflate(Data(m.fragments));
      original.Some? && |original.value| <= cfg.maxMessageSize
  }

  /** What the client meant to say. */
  function Plain(cfg: Config, m: ClientMessage): seq<byte>
    requires Inflates(cfg, m)
  {
    if m.compressed then cfg.inflate(Data(m.fragments)).value else Data(m.fragments)
  }

  /** A message a client may send: it inflates within the limit, and text is UTF-8. */
  ghost predicate Legal(cfg: Config, m: ClientMessage) {
    Framed(cfg, m) && Inflates(cfg, m) && (m.opcode == TEXT ==> IsUtf8(Plain(cfg, m)))
  }

  function MessageBytes(m: ClientMessage): seq<byte> {
    FragmentBytes(m.opcode, m.compressed, m.fragments)
  }

  /** Fragments are put together: the payload of the whole message is delivered once, behind its pongs. */
  lemma Reassembled(cfg: Config, s: State, m: ClientMessage)
    requires Between(s) && Framed(cfg, m)
    ensures var answered := s.(log := s.log + AllAnswers(m.fragments));
            LeadsTo(cfg, s, MessageBytes(m), Deliver(cfg, answered, m.opcode, m.compressed, Data(m.fragments)))
  {
    hide Deliver, Consumes, Ends, Stepper, ClientFrame, ControlBytes, AllAnswers;
    var fs := m.fragments;
    FirstFrame(cfg, s, fs[0], m.opcode, m.compressed, |fs| == 1);
    FragmentUnfold(m.opcode, m.compressed, fs, s.log);
    if |fs| > 1 {
      var s2 := State(false, m.opcode, m.compressed, fs[0].data, s.log + Answers(fs[0].controls));
      ContinuationConsumed(cfg, s2, fs[1..]);
      LeadsToThen(cfg, s,
                  ControlBytes(fs[0].controls) + ClientFrame(Frame(false, m.compressed, m.opcode, fs[0].key, fs[0].data)),
                  s2, FragmentBytes(CONTINUATION, false, fs[1..]),
                  Deliver(cfg, s.(log := s.log + AllAnswers(fs)), m.opcode, m.compressed, Data(fs)));
    }
  }

  /** Reassembly: any fragmentation, any keys, any pings in between; the message arrives whole, once. */
  lemma Reassembly(cfg: Config, s: State, m: ClientMessage)
    requires Between(s) && Legal(cfg, m)
    ensures var answered := s.(log := s.log + AllAnswers(m.fragments));
            LeadsTo(cfg, s, MessageBytes(m), Receive(cfg, answered, m.opcode, Plain(cfg, m)))
  {
    hide LeadsTo, Receive, MessageBytes, AllAnswers;
    Reassembled(cfg, s, m);
  }

  /** A message that does not inflate within the limit closes with 1009; text that is not UTF-8 with 1007. */
  lemma BadMessageRefused(cfg: Config, s: State, m: ClientMessage)
    requires Between(s) && Framed(cfg, m) && !Legal(cfg, m)
    ensures var answered := s.(log := s.log + AllAnswers(m.fragments));
            var code := if Inflates(cfg, m) then 1007 else 1009;
            Ends(Stepper(cfg), s, MessageBytes(m), Shut(answered, code))
  {
    hide Ends, Stepper, MessageBytes, AllAnswers, Consumes;
    Reassembled(cfg, s, m);
  }

  /** The status codes of section 7.4 of RFC 6455 that an endpoint may put in a Close frame. */
  predicate MaySend(code: nat) {
    1000 <= code <= 1003 || 1007 <= code <= 1011 || 3000 <= code <= 4999
  }

  lemma CloseCodes(code: nat)
    ensures ValidCloseCode(code) <==> MaySend(code)
  {
  }

  /** A Close payload is empty, or a status code that may be sent and a UTF-8 reason. */
  ghost predicate LegalClose(payload: seq<byte>) {
    payload == [] ||
    (|payload| >= 2 && MaySend(payload[0] as nat * 256 + payload[1]) && IsUtf8(payload[2..]))
  }

  /** A legal Close is answered with its own status code, a malformed one with 1002, a bad reason with 1007. */
  lemma CloseAnswered(cfg: Config, s: State, key: MaskKey, payload: seq<byte>)
    requires !s.closed && |payload| <= 125 && |payload| <= cfg.maxMessageSize
    ensures var reply :=
              if LegalClose(payload) then (if payload == [] then [] else payload[..2])
              else if |payload| == 1 || !MaySend(payload[0] as nat * 256 + payload[1]) then [3, 234]  // 1002
              else [3, 239];                                                                         // 1007
            Ends(Stepper(cfg), s, ClientFrame(Frame(true, false, CLOSE, key, payload)),
                 s.(closed := true, log := s.log + Closing(reply)))
  {
    hide Ends, Stepper, ClientFrame, IsUtf8, Consumes;
    var f := Frame(true, false, CLOSE, key, payload);
    FirstByteBits(f);
    if |payload| >= 2 {
      CloseCodes(payload[0] as nat * 256 + payload[1]);
    }
    FrameConsumed(cfg, s, f);
  }

  // ---------- What the peer reads ----------

  /** The bytes are one unmasked frame with this first byte and payload. */
  ghost predicate ReadsAs(wire: seq<byte>, first: byte, payload: seq<byte>) {
    && wire != [] && wire[0] == first
    && var status := Inspect(wire);
       && status.Complete?
       && var h := status.header;
          && h.fin == (first >= 128) && h.opcode == first % 16 && !h.masked
          && h.headerLength + h.payloadLength == |wire| && wire[h.headerLength..] == payload
  }

  lemma ServerFrameReads(first: byte, payload: seq<byte>)
    requires |payload| < 0x8000_0000_0000_0000
    requires IsControl(first % 16) ==> first >= 128 && |payload| <= 125
    ensures ReadsAs(ServerFrame(first, payload), first, payload)
  {
    hide Inspect, LengthField;
    InspectBounds(ServerFrame(first, payload));
    ServerFrameRead(first, payload, []);
    var wire := ServerFrame(first, payload);
    assert wire + [] == wire;
    var h := Inspect(wire).header;
    assert wire[h.headerLength + h.payloadLength..] == [];
    assert wire[h.headerLength..h.headerLength + h.payloadLength] == wire[h.headerLength..];
  }

  /** A message as it goes on the wire: deflated if that was negotiated. */
  function OnWire(cfg: Config, message: seq<byte>): seq<byte> {
    if cfg.deflateEnabled then cfg.deflate(message) else message
  }

  /**
   What the peer reads of a message: one final frame, text 1 or binary 2, with RSV1 and the deflated message if
   compression was negotiated and the message itself if not. A closed connection sends nothing.
   */
  lemma SendReads(cfg: Config, s: State, text: bool, message: seq<byte>)
    requires |OnWire(cfg, message)| < 0x8000_0000_0000_0000
    ensures var s' := ApplyCall(cfg, s, if text then Send(message) else SendBinary(message));
            if s.closed then s' == s
            else
              && |s'.log| == |s.log| + 1 && s'.log[|s.log|].Wrote?
              && s' == s.(log := s.log + [s'.log[|s.log|]])
              && ReadsAs(s'.log[|s.log|].frame,
                         (if cfg.deflateEnabled then 0xC0 else 0x80) + (if text then 1 else 2), OnWire(cfg, message))
  {
    hide ReadsAs;
    var first := (if cfg.deflateEnabled then 0xC0 else 0x80) + (if text then 1 else 2);
    assert first % 16 < 3;
    ServerFrameReads(first, OnWire(cfg, message));
  }

  /** The application's calls take effect one after another, in order. */
  lemma {:induction false} CallsInOrder(cfg: Config, s: State, a: seq<Call>, b: seq<Call>)
    ensures ApplyCalls(cfg, s, a + b) == ApplyCalls(cfg, ApplyCalls(cfg, s, a), b)
    ensures |a| == 1 ==> ApplyCalls(cfg, s, a) == ApplyCall(cfg, s, a[0])
    decreases |a|
  {
    hide ApplyCall;
    if a == [] {
      assert a + b == b;
    } else {
      assert (a + b)[0] == a[0] && (a + b)[1..] == a[1..] + b;
      CallsInOrder(cfg, ApplyCall(cfg, s, a[0]), a[1..], b);
    }
  }

  /** A ping the application sends is an empty final frame of opcode 9. */
  lemma PingReads(cfg: Config, s: State)
    requires !s.closed
    ensures var s' := ApplyCall(cfg, s, Ping);
            && |s'.log| == |s.log| + 1 && s' == s.(log := s.log + [s'.log[|s.log|]])
            && s'.log[|s.log|].Wrote? && ReadsAs(s'.log[|s.log|].frame, 0x89, [])
  {
    hide ReadsAs;
    ServerFrameReads(0x89, []);
  }

  /** A ping is answered with a final frame of opcode 10 and the ping's own payload; a pong with nothing. */
  lemma AnswerReads(c: Control)
    requires |c.payload| <= 125
    ensures if c.isPing then |Answer(c)| == 1 && Answer(c)[0].Wrote? && ReadsAs(Answer(c)[0].frame, 0x8A, c.payload)
            else Answer(c) == []
  {
    hide ReadsAs;
    ServerFrameReads(0x8A, c.payload);
  }

  /** Closing sends one final frame of opcode 8 whose two bytes are the code, high byte first. */
  lemma CloseReads(s: State, code: nat)
    requires !s.closed && code < 0x1_0000
    ensures var s' := Shut(s, code);
            && s'.closed && |s'.log| == |s.log| + 3 && s'.log[..|s.log|] == s.log
            && s'.log[|s.log|].Wrote? && s'.log[|s.log| + 1..] == [TransportClosed, CloseNotified]
            && ReadsAs(s'.log[|s.log|].frame, 0x88, [code / 256, code % 256])
  {
    hide ReadsAs;
    ServerFrameReads(0x88, [code / 256, code % 256]);
    assert CodeBytes(code) == [code / 256, code % 256];
  }

  // ---------- Whole conversations ----------

  predicate IsDelivery(e: Event) {
    e.Message? || e.BinaryMessage?
  }

  predicate IsPong(e: Event) {
    e.Wrote? && e.frame != [] && e.frame[0] == FIN + PONG
  }

  /** The events of the log that satisfy `p`, in order. */
  function Select(log: seq<Event>, p: Event -> bool): seq<Event> {
    if log == [] then [] else (if p(log[0]) then [log[0]] else []) + Select(log[1..], p)
  }

  lemma {:induction false} SelectAppend(a: seq<Event>, b: seq<Event>, p: Event -> bool)
    ensures Select(a + b, p) == Select(a, p) + Select(b, p)
    decreases |a|
  {
    if a == [] {
      assert a + b == b;
    } else {
      SelectAppend(a[1..], b, p);
      assert (a + b)[0] == a[0] && (a + b)[1..] == a[1..] + b;
      var head := if p(a[0]) then [a[0]] else [];
      assert head + (Select(a[1..], p) + Select(b, p)) == (head + Select(a[1..], p)) + Select(b, p);
    }
  }

  lemma SelectAdd(log: seq<Event>, e: Event, p: Event -> bool)
    ensures Select(log + [e], p) == Select(log, p) + (if p(e) then [e] else [])
  {
    SelectAppend(log, [e], p);
    assert [e][1..] == [];
  }

  /** Two open states whose logs differ only in what the application sent. */
  ghost predicate SentOnly(s: State, s': State) {
    && s'.(log := s.log) == s
    && Select(s'.log, IsDelivery) == Select(s.log, IsDelivery)
    && Select(s'.log, IsPong) == Select(s.log, IsPong)
  }

  lemma CallSendsOnly(cfg: Config, s: State, call: Call)
    requires !call.CloseWith?
    ensures SentOnly(s, ApplyCall(cfg, s, call))
  {
    var s' := ApplyCall(cfg, s, call);
    if s' != s {
      var e := s'.log[|s'.log| - 1];
      SelectAdd(s.log, e, IsDelivery);
      SelectAdd(s.log, e, IsPong);
    }
  }

  lemma {:induction false} CallsSendOnly(cfg: Config, s: State, calls: seq<Call>)
    requires forall i :: 0 <= i < |calls| ==> !calls[i].CloseWith?
    ensures SentOnly(s, ApplyCalls(cfg, s, calls))
    decreases |calls|
  {
    hide ApplyCall, Select;
    if calls != [] {
      CallSendsOnly(cfg, s, calls[0]);
      CallsSendOnly(cfg, ApplyCall(cfg, s, calls[0]), calls[1..]);
    }
  }

  /** An application that reacts to messages in any way but by closing. */
  ghost predicate NeverCloses(cfg: Config) {
    forall log, i :: 0 <= i < |cfg.react(log)| ==> !cfg.react(log)[i].CloseWith?
  }

  function Conversation(ms: seq<ClientMessage>): seq<byte> {
    if ms == [] then [] else MessageBytes(ms[0]) + Conversation(ms[1..])
  }

  /** What the application hears of a message: its binary handler if it has one for that, else the general one. */
  function Delivery(cfg: Config, m: ClientMessage): seq<Event>
    requires Inflates(cfg, m)
  {
    if m.opcode == BINARY && cfg.hasBinaryHandler then [BinaryMessage(Plain(cfg, m))]
    else if cfg.hasMessageHandler then [Message(Plain(cfg, m))]
    else []
  }

  ghost predicate AllLegal(cfg: Config, ms: seq<ClientMessage>) {
    forall i :: 0 <= i < |ms| ==> Legal(cfg, ms[i])
  }

  ghost function Deliveries(cfg: Config, ms: seq<ClientMessage>): seq<Event>
    requires AllLegal(cfg, ms)
  {
    if ms == [] then []
    else
      assert Legal(cfg, ms[0]);
      Delivery(cfg, ms[0]) + Deliveries(cfg, ms[1..])
  }

  function Pongs(ms: seq<ClientMessage>): seq<Event> {
    if ms == [] then [] else AllAnswers(ms[0].fragments) + Pongs(ms[1..])
  }

  lemma AnswerSelect(c: Control)
    ensures Select(Answer(c), IsDelivery) == [] && Select(Answer(c), IsPong) == Answer(c)
  {
    if c.isPing {
      var e := Wrote(ServerFrame(FIN + PONG, c.payload));
      assert IsPong(e) && !IsDelivery(e);
      assert [e][1..] == [];
    }
  }

  lemma {:induction false} AnswersSelect(cs: seq<Control>)
    ensures Select(Answers(cs), IsDelivery) == []
    ensures Select(Answers(cs), IsPong) == Answers(cs)
  {
    if cs != [] {
      AnswersSelect(cs[1..]);
      AnswerSelect(cs[0]);
      SelectAppend(Answer(cs[0]), Answers(cs[1..]), IsDelivery);
      SelectAppend(Answer(cs[0]), Answers(cs[1..]), IsPong);
    }
  }

  lemma {:induction false} AllAnswersSelect(fs: seq<Fragment>)
    ensures Select(AllAnswers(fs), IsDelivery) == []
    ensures Select(AllAnswers(fs), IsPong) == AllAnswers(fs)
  {
    if fs != [] {
      AllAnswersSelect(fs[1..]);
      AnswersSelect(fs[0].controls);
      SelectAppend(Answers(fs[0].controls), AllAnswers(fs[1..]), IsDelivery);
      SelectAppend(Answers(fs[0].controls), AllAnswers(fs[1..]), IsPong);
    }
  }

  /** The log after one legal message: its pongs, its delivery, and what the application sent. */
  lemma DeliveryIs(cfg: Config, m: ClientMessage)
    requires Inflates(cfg, m)
    ensures match HandlerEvent(cfg, m.opcode, Plain(cfg, m))
            case None => Delivery(cfg, m) == []
            case Some(e) => Delivery(cfg, m) == [e] && IsDelivery(e) && !IsPong(e)
  {
  }

  lemma ReceiveEffect(cfg: Config, s: State, m: ClientMessage)
    requires Between(s) && Legal(cfg, m) && NeverCloses(cfg)
    ensures var answered := s.(log := s.log + AllAnswers(m.fragments));
            var s' := Receive(cfg, answered, m.opcode, Plain(cfg, m));
            && Between(s')
            && Select(s'.log, IsDelivery) == Select(s.log, IsDelivery) + Delivery(cfg, m)
            && Select(s'.log, IsPong) == Select(s.log, IsPong) + AllAnswers(m.fragments)
  {
    hide Delivery, HandlerEvent, Plain, Framed, AllAnswers, IsDelivery, IsPong, ApplyCalls;
    DeliveryIs(cfg, m);
    var pongs := AllAnswers(m.fragments);
    AllAnswersSelect(m.fragments);
    SelectAppend(s.log, pongs, IsDelivery);
    SelectAppend(s.log, pongs, IsPong);
    match HandlerEvent(cfg, m.opcode, Plain(cfg, m))
    case None =>
    case Some(e) =>
      SelectAdd(s.log + pongs, e, IsDelivery);
      SelectAdd(s.log + pongs, e, IsPong);
      CallsSendOnly(cfg, Emit(s.(log := s.log + pongs), e), cfg.react(s.log + pongs + [e]));
  }

  /** One legal message: consumed, delivered once, its pings answered. */
  lemma MessageConsumed(cfg: Config, s: State, m: ClientMessage) returns (s': State)
    requires Between(s) && NeverCloses(cfg) && Legal(cfg, m)
    ensures Between(s') && Consumes(Stepper(cfg), s, MessageBytes(m), s')
    ensures Select(s'.log, IsDelivery) == Select(s.log, IsDelivery) + Delivery(cfg, m)
    ensures Select(s'.log, IsPong) == Select(s.log, IsPong) + AllAnswers(m.fragments)
  {
    hide Step, Receive, MessageBytes, Select, Delivery, AllAnswers, Consumes, Stepper;
    s' := Receive(cfg, s.(log := s.log + AllAnswers(m.fragments)), m.opcode, Plain(cfg, m));
    Reassembly(cfg, s, m);
    ReceiveEffect(cfg, s, m);
  }

  lemma {:induction false} ConversationConsumed(cfg: Config, s: State, ms: seq<ClientMessage>) returns (s': State)
    requires Between(s) && NeverCloses(cfg)
    requires AllLegal(cfg, ms)
    ensures Between(s') && Consumes(Stepper(cfg), s, Conversation(ms), s')
    ensures Select(s'.log, IsDelivery) == Select(s.log, IsDelivery) + Deliveries(cfg, ms)
    ensures Select(s'.log, IsPong) == Select(s.log, IsPong) + Pongs(ms)
    decreases |ms|
  {
    hide Legal, MessageBytes, Select, Delivery, AllAnswers, Consumes, Stepper, Between, NeverCloses;
    if ms == [] {
      s' := s;
      ConsumesNothing(Stepper(cfg), s);
    } else {
      assert Legal(cfg, ms[0]);
      var s1 := MessageConsumed(cfg, s, ms[0]);
      s' := ConversationConsumed(cfg, s1, ms[1..]);
      ConsumesThen(Stepper(cfg), s, MessageBytes(ms[0]), s1, Conversation(ms[1..]), s');
      LegalInflates(cfg, ms[0]);
      EventsAssoc(Select(s.log, IsDelivery), Delivery(cfg, ms[0]), Deliveries(cfg, ms[1..]));
      EventsAssoc(Select(s.log, IsPong), AllAnswers(ms[0].fragments), Pongs(ms[1..]));
    }
  }

  lemma LegalInflates(cfg: Config, m: ClientMessage)
    requires Legal(cfg, m)
    ensures Inflates(cfg, m)
  {
  }

  lemma EventsAssoc(a: seq<Event>, b: seq<Event>, c: seq<Event>)
    ensures (a + b) + c == a + (b + c)
  {
  }

  /**
   Any sequence of legal messages, in any fragmentation, with any keys and pings, cut into any reads:
   each message is delivered exactly once, in order, and each ping is answered in order with its own payload.
   */
  lemma ConversationDelivered(cfg: Config, ms: seq<ClientMessage>, pieces: seq<seq<byte>>)
    requires NeverCloses(cfg)
    requires AllLegal(cfg, ms)
    requires Concat(pieces) == Conversation(ms)
    ensures var end := Session(cfg, START, pieces);
            && Between(end)
            && Select(end.log, IsDelivery) == Deliveries(cfg, ms)
            && Select(end.log, IsPong) == Pongs(ms)
  {
    hide Step, Stepper, Loop, Consumes, Conversation, Deliveries, Pongs, NeverCloses, AllLegal;
    var end := ConversationConsumed(cfg, START, ms);
    SplitIndependence(cfg, START, pieces);
    ConsumesAll(Stepper(cfg), START, Conversation(ms), end);
    StepEmpty(cfg, end);
  }

  lemma StepEmpty(cfg: Config, s: State)
    ensures Loop(Stepper(cfg), s, []) == (s, [])
  {
  }

  // ---------- Closing ----------

  predicate IsCloseFrame(e: Event) {
    e.Wrote? && e.frame != [] && e.frame[0] == FIN + CLOSE
  }

  /** Events of a connection that is still open. */
  predicate IsOpenEvent(e: Event) {
    IsDelivery(e) || (e.Wrote? && e.frame != [] && e.frame[0] != FIN + CLOSE)
  }

  ghost predicate AllOpen(log: seq<Event>) {
    forall i :: 0 <= i < |log| ==> IsOpenEvent(log[i])
  }

  /** A closed connection's log ends with one Close frame or a lost transport, and the close handler. */
  ghost predicate EndsClosed(log: seq<Event>) {
    || (|log| >= 1 && AllOpen(log[..|log| - 1]) && log[|log| - 1] == CloseNotified)
    || (&& |log| >= 3 && AllOpen(log[..|log| - 3])
        && IsCloseFrame(log[|log| - 3]) && log[|log| - 2] == TransportClosed && log[|log| - 1] == CloseNotified)
  }

  ghost predicate Inv(cfg: Config, s: State) {
    && (if s.closed then EndsClosed(s.log) else AllOpen(s.log))
    && s.fragmentOpcode in {0, TEXT, BINARY}
    && (s.fragmentOpcode == 0 ==> s.fragmentPayload == [] && !s.fragmentCompressed)
    && |s.fragmentPayload| <= cfg.maxMessageSize
  }

  lemma ShutKeeps(cfg: Config, s: State, payload: seq<byte>)
    requires Inv(cfg, s) && !s.closed
    ensures Inv(cfg, s.(closed := true, log := s.log + Closing(payload)))
  {
    var log := s.log + Closing(payload);
    assert log[..|log| - 3] == s.log;
  }

  lemma LostKeeps(cfg: Config, s: State)
    requires Inv(cfg, s)
    ensures Inv(cfg, TransportLost(s))
  {
    var log := s.log + [CloseNotified];
    assert log[..|log| - 1] == s.log;
  }

  lemma CallKeeps(cfg: Config, s: State, call: Call)
    requires Inv(cfg, s)
    ensures Inv(cfg, ApplyCall(cfg, s, call))
  {
    if call.CloseWith? && !s.closed {
      ShutKeeps(cfg, s, CodeBytes(call.code));
    }
  }

  lemma {:induction false} CallsKeep(cfg: Config, s: State, calls: seq<Call>)
    requires Inv(cfg, s)
    ensures Inv(cfg, ApplyCalls(cfg, s, calls))
    decreases |calls|
  {
    if calls != [] {
      CallKeeps(cfg, s, calls[0]);
      CallsKeep(cfg, ApplyCall(cfg, s, calls[0]), calls[1..]);
    }
  }

  lemma DeliverKeeps(cfg: Config, s: State, opcode: byte, compressed: bool, payload: seq<byte>)
    requires Inv(cfg, s) && !s.closed
    ensures Inv(cfg, Deliver(cfg, s, opcode, compressed, payload))
  {
    ShutKeeps(cfg, s, CodeBytes(1009));
    ShutKeeps(cfg, s, CodeBytes(1007));
    match Decoded(cfg, compressed, payload)
    case None =>
    case Some(message) =>
      match HandlerEvent(cfg, opcode, message)
      case None =>
      case Some(e) => CallsKeep(cfg, Emit(s, e), cfg.react(s.log + [e]));
  }

  lemma PeerCloseKeeps(cfg: Config, s: State, payload: seq<byte>)
    requires Inv(cfg, s) && !s.closed
    ensures Inv(cfg, PeerClose(s, payload))
  {
    ShutKeeps(cfg, s, CodeBytes(1002));
    ShutKeeps(cfg, s, CodeBytes(1007));
    ShutKeeps(cfg, s, if |payload| >= 2 then payload[..2] else []);
  }

  lemma FrameKeeps(cfg: Config, s: State, first: byte, fin: bool, payload: seq<byte>)
    requires Inv(cfg, s) && !s.closed
    requires Refusal(cfg, s, first, true, |payload|).None?
    ensures Inv(cfg, OnFrame(cfg, s, fin, first / 64 % 2 == 1, first % 16, payload))
  {
    hide Deliver, PeerClose, ServerFrame;
    var opcode: byte := first % 16;
    if opcode == CLOSE {
      PeerCloseKeeps(cfg, s, payload);
    } else if opcode == PING {
      assert IsOpenEvent(Wrote(ServerFrame(FIN + PONG, payload))) by { PongIsOpen(payload); }
    } else if (opcode == TEXT || opcode == BINARY) && fin {
      DeliverKeeps(cfg, s, opcode, first / 64 % 2 == 1, payload);
    } else if opcode == CONTINUATION && fin {
      DeliverKeeps(cfg, s.(fragmentOpcode := 0, fragmentCompressed := false, fragmentPayload := []),
                   s.fragmentOpcode, s.fragmentCompressed, s.fragmentPayload + payload);
    }
  }

  lemma PongIsOpen(payload: seq<byte>)
    ensures IsOpenEvent(Wrote(ServerFrame(FIN + PONG, payload)))
  {
  }

  lemma StepKeeps(cfg: Config, s: State, buffer: seq<byte>)
    requires Inv(cfg, s)
    ensures !Step(cfg, s, buffer).Wait? ==> Inv(cfg, Step(cfg, s, buffer).state)
  {
    hide OnFrame, Inv, Inspect;
    if buffer != [] && !s.closed && !Inspect(buffer).NeedHeader? {
      InspectBounds(buffer);
      ShutKeeps(cfg, s, CodeBytes(1002));
      ShutKeeps(cfg, s, CodeBytes(1009));
      if Inspect(buffer).Complete? {
        var h := Inspect(buffer).header;
        if Refusal(cfg, s, buffer[0], h.masked, h.payloadLength).None? {
          FrameKeeps(cfg, s, buffer[0], h.fin,
                     Mask(buffer[h.headerLength..h.headerLength + h.payloadLength], h.maskKey));
        }
      }
    }
  }

  /** Anything that can happen to a connection on its event loop. */
  datatype Happening = Read(bytes: seq<byte>) | Called(call: Call) | Lost

  ghost function History(cfg: Config, s: State, left: seq<byte>, hs: seq<Happening>): State
    decreases |hs|
  {
    if hs == [] then s
    else
      match hs[0]
      case Read(bytes) => var (s', left') := Run(cfg, s, left + bytes); History(cfg, s', left', hs[1..])
      case Called(call) => History(cfg, ApplyCall(cfg, s, call), left, hs[1..])
      case Lost => History(cfg, TransportLost(s), left, hs[1..])
  }

  lemma {:induction false} HistoryKeeps(cfg: Config, s: State, left: seq<byte>, hs: seq<Happening>)
    requires Inv(cfg, s)
    ensures Inv(cfg, History(cfg, s, left, hs))
    decreases |hs|
  {
    hide Inv, Step;
    if hs != [] {
      match hs[0]
      case Read(bytes) =>
        var (s', left') := Run(cfg, s, left + bytes);
        forall s, b | Inv(cfg, s) && !Step(cfg, s, b).Wait?
          ensures Inv(cfg, Step(cfg, s, b).state)
        {
          StepKeeps(cfg, s, b);
        }
        LoopKeeps(Stepper(cfg), s => Inv(cfg, s), s, left + bytes);
        HistoryKeeps(cfg, s', left', hs[1..]);
      case Called(call) =>
        CallKeeps(cfg, s, call);
        HistoryKeeps(cfg, ApplyCall(cfg, s, call), left, hs[1..]);
      case Lost =>
        LostKeeps(cfg, s);
        HistoryKeeps(cfg, TransportLost(s), left, hs[1..]);
    }
  }

  /**
   Over every history: at most one Close frame is written and no frame after it, the close handler runs
   exactly once on a closed connection and never on an open one, and the fragment buffer stays in its limit.
   */
  lemma ClosesOnce(cfg: Config, hs: seq<Happening>)
    ensures var s := History(cfg, START, [], hs);
            && (forall i, j :: 0 <= i < j < |s.log| && IsCloseFrame(s.log[i]) ==> !s.log[j].Wrote?)
            && (forall i :: 0 <= i < |s.log| && s.log[i] == CloseNotified ==> i == |s.log| - 1)
            && (s.closed <==> CloseNotified in s.log)
            && |s.fragmentPayload| <= cfg.maxMessageSize
            && (s.fragmentOpcode == 0 ==> s.fragmentPayload == [])
  {
    HistoryKeeps(cfg, START, [], hs);
    var s := History(cfg, START, [], hs);
    assert forall i :: 0 <= i < |s.log| - 1 ==> s.log[i] == s.log[..|s.log| - 1][i];
    if |s.log| >= 3 {
      assert forall i :: 0 <= i < |s.log| - 3 ==> s.log[i] == s.log[..|s.log| - 3][i];
    }
    if s.closed {
      assert s.log[|s.log| - 1] == CloseNotified;
    }
  }
}
