/**
 The per-connection WebSocket engine: frame loop, fragment reassembly, control frames and closing.

 User callbacks and the transport are an append-only event log. An application is a function from
 the log to the calls its handler makes, so any deterministic application is covered. Compression
 is a pair of uninterpreted functions with the source's size check around them.
 */
module WebSocketEngine {
  import opened Bytes
  import opened Collections
  import opened Incremental
  import opened Utf8
  import opened WebSocketFrame

  datatype Event =
    | Message(payload: seq<byte>)        // on_message handler
    | BinaryMessage(payload: seq<byte>)  // on_binary_message handler
    | Wrote(frame: seq<byte>)            // one frame handed to the transport
    | TransportClosed                    // transport asked to close once its bytes are sent
    | CloseNotified                      // on_close handler

  /** Calls an application may make on the connection. */
  datatype Call = Send(message: seq<byte>) | SendBinary(data: seq<byte>) | Ping | CloseWith(code: nat)

  datatype Config = Config(
    maxMessageSize: nat,
    deflateEnabled: bool,
    inflate: seq<byte> -> Option<seq<byte>>,
    deflate: seq<byte> -> seq<byte>,
    hasMessageHandler: bool,
    hasBinaryHandler: bool,
    react: seq<Event> -> seq<Call>)

  datatype State = State(
    closed: bool, fragmentOpcode: byte, fragmentCompressed: bool, fragmentPayload: seq<byte>, log: seq<Event>)

  const START := State(false, 0, false, [], [])

  // ---------- Sending and closing ----------

  ghost function Emit(s: State, e: Event): State {
    s.(log := s.log + [e])
  }

  ghost function SendFrame(cfg: Config, s: State, opcode: byte, payload: seq<byte>): State
    requires opcode < 16
  {
    if s.closed then s
    else if cfg.deflateEnabled && (opcode == TEXT || opcode == BINARY) then
      Emit(s, Wrote(ServerFrame(FIN + RSV1 + opcode, cfg.deflate(payload))))
    else
      Emit(s, Wrote(ServerFrame(FIN + opcode, payload)))
  }

  function CodeBytes(code: nat): seq<byte> {
    [code / 256 % 256, code % 256]
  }

  /** The events of closing with a Close frame that carries `payload`. */
  function Closing(payload: seq<byte>): seq<Event> {
    [Wrote(ServerFrame(FIN + CLOSE, payload)), TransportClosed, CloseNotified]
  }

  /** Local close and protocol failure. */
  ghost function Shut(s: State, code: nat): State {
    if s.closed then s else s.(closed := true, log := s.log + Closing(CodeBytes(code)))
  }

  ghost function TransportLost(s: State): State {
    if s.closed then s else s.(closed := true, log := s.log + [CloseNotified])
  }

  predicate ValidCloseCode(code: nat) {
    3000 <= code <= 4999 || code in {1000, 1001, 1002, 1003, 1007, 1008, 1009, 1010, 1011}
  }

  ghost function PeerClose(s: State, payload: seq<byte>): State {
    if |payload| == 1 then Shut(s, 1002)
    else if |payload| >= 2 && !ValidCloseCode(payload[0] as nat * 256 + payload[1]) then Shut(s, 1002)
    else if |payload| >= 2 && !IsUtf8(payload[2..]) then Shut(s, 1007)
    else
      var reply := if |payload| >= 2 then payload[..2] else [];
      if s.closed then s.(log := s.log + [TransportClosed, CloseNotified])
      else s.(closed := true, log := s.log + Closing(reply))
  }

  // ---------- Receiving ----------

  ghost function ApplyCall(cfg: Config, s: State, call: Call): State {
    match call
    case Send(message) => SendFrame(cfg, s, TEXT, message)
    case SendBinary(data) => SendFrame(cfg, s, BINARY, data)
    case Ping => if s.closed then s else Emit(s, Wrote(ServerFrame(FIN + PING, [])))
    case CloseWith(code) => Shut(s, code)
  }

  ghost function ApplyCalls(cfg: Config, s: State, calls: seq<Call>): State
    decreases |calls|
  {
    if calls == [] then s else ApplyCalls(cfg, ApplyCall(cfg, s, calls[0]), calls[1..])
  }

  /** The message a payload stands for; None if it does not inflate within the limit. */
  function Decoded(cfg: Config, compressed: bool, payload: seq<byte>): Option<seq<byte>> {
    if !compressed then Some(payload)
    else
      match cfg.inflate(payload)
      case None => None
      case Some(out) => if |out| > cfg.maxMessageSize then None else Some(out)
  }

  function HandlerEvent(cfg: Config, opcode: byte, message: seq<byte>): Option<Event> {
    if opcode == BINARY && cfg.hasBinaryHandler then Some(BinaryMessage(message))
    else if cfg.hasMessageHandler then Some(Message(message))
    else None
  }

  /** Hands one message to the application and lets it react. */
  ghost function Receive(cfg: Config, s: State, opcode: byte, message: seq<byte>): State {
    match HandlerEvent(cfg, opcode, message)
    case None => s
    case Some(e) => ApplyCalls(cfg, Emit(s, e), cfg.react(s.log + [e]))
  }

  ghost function Deliver(cfg: Config, s: State, opcode: byte, compressed: bool, payload: seq<byte>): State {
    match Decoded(cfg, compressed, payload)
    case None => Shut(s, 1009)
    case Some(message) =>
      if opcode == TEXT && !IsUtf8(message) then Shut(s, 1007) else Receive(cfg, s, opcode, message)
  }

  /** The close code a header alone earns, if any. */
  function Refusal(cfg: Config, s: State, first: byte, masked: bool, payloadLength: nat): Option<nat> {
    var opcode: byte := first % 16;
    var rsv1 := first / 64 % 2 == 1;
    var isData := opcode == TEXT || opcode == BINARY;
    var already := if opcode == CONTINUATION then |s.fragmentPayload| else 0;
    if || !masked
       || first / 16 % 4 != 0
       || (rsv1 && !(cfg.deflateEnabled && isData))
       || (!isData && !IsControl(opcode) && opcode != CONTINUATION)
       || (IsControl(opcode) && opcode != CLOSE && opcode != PING && opcode != PONG)
       || (opcode == CONTINUATION && s.fragmentOpcode == 0)
       || (isData && s.fragmentOpcode != 0)
    then Some(1002)
    else if payloadLength > cfg.maxMessageSize || already + payloadLength > cfg.maxMessageSize then Some(1009)
    else None
  }

  /** The effect of one accepted frame, its payload already unmasked. */
  ghost function OnFrame(cfg: Config, s: State, fin: bool, rsv1: bool, opcode: byte, payload: seq<byte>): State
    requires opcode < 16
  {
    if opcode == CLOSE then PeerClose(s, payload)
    else if opcode == PING then
      if s.closed then s else Emit(s, Wrote(ServerFrame(FIN + PONG, payload)))
    else if opcode == PONG then s
    else if opcode == TEXT || opcode == BINARY then
      if fin then Deliver(cfg, s, opcode, rsv1, payload)
      else s.(fragmentOpcode := opcode, fragmentCompressed := rsv1, fragmentPayload := payload)
    else
      var whole := s.fragmentPayload + payload;
      if fin then
        Deliver(cfg, s.(fragmentOpcode := 0, fragmentCompressed := false, fragmentPayload := []),
                s.fragmentOpcode, s.fragmentCompressed, whole)
      else s.(fragmentPayload := whole)
  }

  /** One pass of the frame loop over everything buffered. */
  ghost function Step(cfg: Config, s: State, buffer: seq<byte>): Outcome<State> {
    if buffer == [] || s.closed then Wait
    else
      InspectBounds(buffer);
      match Inspect(buffer)
      case Invalid => Stop(Shut(s, 1002))
      case NeedHeader => Wait
      case NeedPayload(h) =>
        (match Refusal(cfg, s, buffer[0], h.masked, h.payloadLength)
         case Some(code) => Stop(Shut(s, code))
         case None => Wait)
      case Complete(h) =>
        (match Refusal(cfg, s, buffer[0], h.masked, h.payloadLength)
         case Some(code) => Stop(Shut(s, code))
         case None =>
           var end := h.headerLength + h.payloadLength;
           var s' := OnFrame(cfg, s, h.fin, buffer[0] / 64 % 2 == 1, h.opcode,
                             Mask(buffer[h.headerLength..end], h.maskKey));
           if h.opcode == CLOSE || s'.closed then Stop(s') else Go(s', end))
  }

  ghost function Stepper(cfg: Config): (State, seq<byte>) -> Outcome<State> {
    (s, buffer) => Step(cfg, s, buffer)
  }

  /** The frame loop: the new state and the bytes left in the buffer. */
  ghost function Run(cfg: Config, s: State, buffer: seq<byte>): (State, seq<byte>) {
    Loop(Stepper(cfg), s, buffer)
  }

  lemma AcceptedIsMasked(cfg: Config, s: State, first: byte, masked: bool, payloadLength: nat)
    requires Refusal(cfg, s, first, masked, payloadLength).None?
    ensures masked
  {
  }

  // ---------- The connection object ----------

  class WebSocketConnection {
    const cfg: Config
    var isClosed: bool
    var fragmentOpcode: byte
    var fragmentCompressed: bool
    var fragmentPayload: seq<byte>
    var log: seq<Event>

    function Abs(): State
      reads this
    {
      State(isClosed, fragmentOpcode, fragmentCompressed, fragmentPayload, log)
    }

    constructor (cfg: Config)
      ensures Abs() == START && this.cfg == cfg
    {
      this.cfg := cfg;
      isClosed, fragmentOpcode, fragmentCompressed, fragmentPayload, log := false, 0, false, [], [];
    }

    method WriteFrameLocked(first: byte, payload: seq<byte>)
      modifies this`log
      ensures log == old(log) + [Wrote(ServerFrame(first, payload))]
    {
      var frame := WriteFrame(first, payload);
      log := log + [Wrote(frame)];
    }

    method SendFrameLocked(opcode: byte, payload: seq<byte>)
      requires opcode < 16
      modifies this`log
      ensures Abs() == SendFrame(cfg, old(Abs()), opcode, payload)
    {
      if isClosed {
        return;
      }
      if cfg.deflateEnabled && (opcode == TEXT || opcode == BINARY) {
        WriteFrameLocked(FIN + RSV1 + opcode, cfg.deflate(payload));
      } else {
        WriteFrameLocked(FIN + opcode, payload);
      }
    }

    method SendPing()
      modifies this`log
      ensures Abs() == ApplyCall(cfg, old(Abs()), Ping)
    {
      if isClosed {
        return;
      }
      WriteFrameLocked(FIN + PING, []);
    }

    /** Both close and fail_connection: they differ only in who calls them. */
    method Close(code: nat)
      modifies this`log, this`isClosed
      ensures Abs() == Shut(old(Abs()), code)
    {
      if isClosed {
        return;
      }
      isClosed := true;
      WriteFrameLocked(FIN + CLOSE, [code / 256 % 256, code % 256]);
      log := log + [TransportClosed];
      log := log + [CloseNotified];
    }

    method HandleTransportClosed()
      modifies this`log, this`isClosed
      ensures Abs() == TransportLost(old(Abs()))
    {
      if isClosed {
        return;
      }
      isClosed := true;
      log := log + [CloseNotified];
    }

    method HandleCloseFrame(payload: seq<byte>)
      modifies this`log, this`isClosed
      ensures Abs() == PeerClose(old(Abs()), payload)
    {
      if |payload| == 1 {
        Close(1002);
        return;
      }
      var reply := [];
      if |payload| >= 2 {
        var code := payload[0] as nat * 256 + payload[1];
        if !ValidCloseCode(code) {
          Close(1002);
          return;
        }
        var reasonOk := IsValidUtf8(payload[2..]);
        if !reasonOk {
          Close(1007);
          return;
        }
        reply := payload[..2];
      }
      if !isClosed {
        isClosed := true;
        WriteFrameLocked(FIN + CLOSE, reply);
      }
      log := log + [TransportClosed];
      log := log + [CloseNotified];
    }

    /** Runs the application's handler: it makes its calls one after another. */
    method CallHandler(e: Event)
      modifies this`log, this`isClosed
      ensures Abs() == ApplyCalls(cfg, Emit(old(Abs()), e), cfg.react(old(log) + [e]))
    {
      log := log + [e];
      var calls := cfg.react(log);
      for i := 0 to |calls|
        invariant ApplyCalls(cfg, Abs(), calls[i..]) == ApplyCalls(cfg, Emit(old(Abs()), e), calls)
      {
        assert calls[i..][1..] == calls[i + 1..];
        match calls[i]
        case Send(message) => SendFrameLocked(TEXT, message);
        case SendBinary(data) => SendFrameLocked(BINARY, data);
        case Ping => SendPing();
        case CloseWith(code) => Close(code);
      }
    }

    method DeliverMessage(opcode: byte, compressed: bool, payload: seq<byte>) returns (open: bool)
      requires !isClosed
      modifies this`log, this`isClosed
      ensures Abs() == Deliver(cfg, old(Abs()), opcode, compressed, payload)
      ensures open == !isClosed
    {
      var message := payload;
      if compressed {
        var inflated := cfg.inflate(payload);
        if inflated.None? || |inflated.value| > cfg.maxMessageSize {
          Close(1009);
          return false;
        }
        message := inflated.value;
      }
      if opcode == TEXT {
        var ok := IsValidUtf8(message);
        if !ok {
          Close(1007);
          return false;
        }
      }
      if opcode == BINARY && cfg.hasBinaryHandler {
        CallHandler(BinaryMessage(message));
      } else if cfg.hasMessageHandler {
        CallHandler(Message(message));
      }
      return !isClosed;
    }

    /** One pass of the frame loop body behind the header checks. Returns false to stop the loop. */
    method HandleFrame(fin: bool, rsv1: bool, opcode: byte, payload: seq<byte>) returns (continues: bool)
      requires opcode < 16 && !isClosed
      modifies this
      ensures Abs() == OnFrame(cfg, old(Abs()), fin, rsv1, opcode, payload)
      ensures continues == !(opcode == CLOSE || isClosed)
    {
      if opcode == CLOSE {
        HandleCloseFrame(payload);
        return false;
      }
      if opcode == PING {
        WriteFrameLocked(FIN + PONG, payload);
        return true;
      }
      if opcode == PONG {
        return true;
      }
      if opcode == TEXT || opcode == BINARY {
        if fin {
          continues := DeliverMessage(opcode, rsv1, payload);
        } else {
          fragmentOpcode, fragmentCompressed, fragmentPayload := opcode, rsv1, payload;
          continues := true;
        }
        return;
      }
      fragmentPayload := fragmentPayload + payload;
      continues := true;
      if fin {
        var whole, messageOpcode, compressed := fragmentPayload, fragmentOpcode, fragmentCompressed;
        fragmentOpcode, fragmentCompressed, fragmentPayload := 0, false, [];
        continues := DeliverMessage(messageOpcode, compressed, whole);
      }
    }

    /** Unmasks the payload of a complete frame and acts on it. */
    method TakeFrame(buffer: seq<byte>, h: Header) returns (continues: bool)
      requires Inspect(buffer) == Complete(h) && h.masked && !isClosed && h.opcode < 16
      requires h.headerLength + h.payloadLength <= |buffer| && |h.maskKey| == 4
      modifies this
      ensures Abs() == OnFrame(cfg, old(Abs()), h.fin, buffer[0] / 64 % 2 == 1, h.opcode,
                               Mask(buffer[h.headerLength..h.headerLength + h.payloadLength], h.maskKey))
      ensures continues == !(h.opcode == CLOSE || isClosed)
    {
      var slice := buffer[h.headerLength..h.headerLength + h.payloadLength];
      var payload := new byte[|slice|](i requires 0 <= i < |slice| => slice[i]);
      assert payload[..] == slice;
      UnmaskPayload(payload, h.maskKey);
      continues := HandleFrame(h.fin, buffer[0] / 64 % 2 == 1, h.opcode, payload[..]);
    }

    /** The body of the frame loop: acts on the front of the buffer and says how the loop goes on. */
    method ProcessFront(buffer: seq<byte>) returns (outcome: Outcome<()>)
      requires buffer != [] && !isClosed
      modifies this
      ensures match Step(cfg, old(Abs()), buffer)
              case Wait => outcome == Wait && Abs() == old(Abs())
              case Stop(s) => outcome == Stop(()) && Abs() == s
              case Go(s, used) => outcome == Go((), used) && Abs() == s && 0 < used <= |buffer|
    {
      hide Inspect, Refusal, OnFrame, Mask, Shut;
      InspectBounds(buffer);
      var status := InspectFrame(buffer);
      if status.Invalid? {
        Close(1002);
        return Stop(());
      }
      if status.NeedHeader? {
        return Wait;
      }
      var h := status.header;
      var refusal := Refusal(cfg, Abs(), buffer[0], h.masked, h.payloadLength);
      if refusal.Some? {
        Close(refusal.value);
        return Stop(());
      }
      if status.NeedPayload? {
        return Wait;
      }
      AcceptedIsMasked(cfg, Abs(), buffer[0], h.masked, h.payloadLength);
      var continues := TakeFrame(buffer, h);
      return if continues then Go((), h.headerLength + h.payloadLength) else Stop(());
    }

    /** Consumes whole frames from the front of the buffer; returns the bytes left in it. */
    method ProcessRawData(input: seq<byte>) returns (buffer: seq<byte>)
      modifies this
      ensures (Abs(), buffer) == Run(cfg, old(Abs()), input)
    {
      buffer := input;
      while buffer != [] && !isClosed
        invariant Run(cfg, Abs(), buffer) == Run(cfg, old(Abs()), input)
        decreases |buffer|
      {
        var outcome := ProcessFront(buffer);
        match outcome
        case Wait => break;
        case Stop(_) => buffer := []; break;
        case Go(_, used) => buffer := buffer[used..];
      }
    }
  }
}
