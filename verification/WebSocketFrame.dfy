/**
 WebSocket frames on the wire (section 5.2 of RFC 6455): the header parser, the server's frame
 writer, masking, and a client's frame encoding for the two to be measured against.
 */
module WebSocketFrame {
  import opened Bytes

  const CONTINUATION: byte := 0x0
  const TEXT: byte := 0x1
  const BINARY: byte := 0x2
  const CLOSE: byte := 0x8
  const PING: byte := 0x9
  const PONG: byte := 0xA

  const FIN: byte := 0x80
  const RSV1: byte := 0x40

  type Opcode = o: byte | o < 16

  datatype Header = Header(
    fin: bool, opcode: byte, masked: bool, payloadLength: nat, maskKey: seq<byte>, headerLength: nat)

  datatype Status = NeedHeader | NeedPayload(header: Header) | Complete(header: Header) | Invalid

  // ---------- Reading ----------

  /** Bytes of extended length that follow the length byte. */
  function ExtendedLength(lengthByte: byte): nat {
    if lengthByte % 128 == 126 then 2 else if lengthByte % 128 == 127 then 8 else 0
  }

  /** Payload length, from a buffer that holds the whole length field. */
  function PayloadLength(buffer: seq<byte>): nat
    requires |buffer| >= 2 && |buffer| >= 2 + ExtendedLength(buffer[1])
  {
    var extended := ExtendedLength(buffer[1]);
    if extended == 0 then buffer[1] % 128 else BigEndian(buffer[2..2 + extended])
  }

  predicate IsControl(opcode: byte) {
    opcode / 8 % 2 == 1
  }

  /** What the front of the buffer says about the frame that starts there. */
  function Inspect(buffer: seq<byte>): Status {
    if |buffer| < 2 || |buffer| < 2 + ExtendedLength(buffer[1]) then NeedHeader
    else
      var fin, opcode, masked := buffer[0] >= 128, buffer[0] % 16, buffer[1] >= 128;
      var lengthEnd := 2 + ExtendedLength(buffer[1]);
      var length := PayloadLength(buffer);
      if buffer[1] % 128 == 127 && length >= 0x8000_0000_0000_0000 then Invalid
      else if IsControl(opcode) && (length > 125 || !fin) then Invalid
      else if masked && |buffer| < lengthEnd + 4 then NeedHeader
      else
        var headerEnd := if masked then lengthEnd + 4 else lengthEnd;
        var header := Header(fin, opcode, masked, length, buffer[lengthEnd..headerEnd], headerEnd);
        if |buffer| - headerEnd < length then NeedPayload(header) else Complete(header)
  }

  /** The parser as the source runs it: fields read one after another, the long length in a loop. */
  method InspectFrame(buffer: seq<byte>) returns (status: Status)
    ensures status == Inspect(buffer)
  {
    if |buffer| < 2 {
      return NeedHeader;
    }
    var fin := buffer[0] >= 128;
    var opcode := buffer[0] % 16;
    var masked := buffer[1] >= 128;
    var initial := buffer[1] % 128;
    var headerLength := 2;
    var payloadLength: nat := initial;
    if initial == 126 {
      if |buffer| < 4 {
        return NeedHeader;
      }
      payloadLength := buffer[2] as nat * 256 + buffer[3];
      BigEndianTwo(buffer[2..4]);
      headerLength := headerLength + 2;
    } else if initial == 127 {
      if |buffer| < 10 {
        return NeedHeader;
      }
      var hostLength: nat := 0;
      for i := 0 to 8
        invariant hostLength == BigEndian(buffer[2..2 + i])
      {
        assert buffer[2..2 + i + 1][..i] == buffer[2..2 + i];
        hostLength := hostLength * 256 + buffer[2 + i];
      }
      if hostLength >= 0x8000_0000_0000_0000 {
        return Invalid;
      }
      payloadLength := hostLength;
      headerLength := headerLength + 8;
    }
    if IsControl(opcode) && (payloadLength > 125 || !fin) {
      return Invalid;
    }
    var maskKey := [];
    if masked {
      if |buffer| < headerLength + 4 {
        return NeedHeader;
      }
      maskKey := buffer[headerLength..headerLength + 4];
      headerLength := headerLength + 4;
    }
    var header := Header(fin, opcode, masked, payloadLength, maskKey, headerLength);
    if |buffer| - headerLength < payloadLength {
      return NeedPayload(header);
    }
    return Complete(header);
  }

  /** More input never changes a verdict, only completes it. */
  lemma InspectStable(buffer: seq<byte>, more: seq<byte>)
    ensures Inspect(buffer).Invalid? ==> Inspect(buffer + more).Invalid?
    ensures Inspect(buffer).Complete? ==> Inspect(buffer + more) == Inspect(buffer)
    ensures Inspect(buffer).NeedPayload? ==>
              var status := Inspect(buffer + more);
              (status.NeedPayload? || status.Complete?) && status.header == Inspect(buffer).header
  {
    if !Inspect(buffer).NeedHeader? {
      var whole := buffer + more;
      var lengthEnd := 2 + ExtendedLength(buffer[1]);
      assert whole[0] == buffer[0] && whole[1] == buffer[1];
      assert whole[2..lengthEnd] == buffer[2..lengthEnd];
      if buffer[1] >= 128 && |buffer| >= lengthEnd + 4 {
        assert whole[lengthEnd..lengthEnd + 4] == buffer[lengthEnd..lengthEnd + 4];
      } else {
        assert whole[lengthEnd..lengthEnd] == buffer[lengthEnd..lengthEnd];
      }
    }
  }

  /** A parsed header lies inside the buffer and takes at least two bytes. */
  lemma InspectBounds(buffer: seq<byte>)
    ensures var status := Inspect(buffer);
            status.NeedPayload? || status.Complete? ==>
              var h := status.header;
              && 2 <= h.headerLength <= |buffer|
              && h.opcode == buffer[0] % 16 && h.opcode < 16
              && |h.maskKey| == (if h.masked then 4 else 0)
              && (status.Complete? ==> h.headerLength + h.payloadLength <= |buffer|)
              && (IsControl(h.opcode) ==> h.fin && h.payloadLength <= 125)
  {
  }

  // ---------- Writing ----------

  /** The length field, with the mask bit, in its shortest form. */
  function LengthField(maskBit: bool, length: nat): (s: seq<byte>)
    ensures 1 <= |s| <= 9
  {
    var bit := if maskBit then 0x80 else 0;
    if length <= 125 then [bit + length]
    else if length <= 65535 then [bit + 126] + ToBigEndian(length, 2)
    else [bit + 127] + ToBigEndian(length, 8)
  }

  /** A server frame: never masked. */
  function ServerFrame(first: byte, payload: seq<byte>): seq<byte> {
    [first] + LengthField(false, |payload|) + payload
  }

  lemma ToBigEndianTwo(n: nat)
    ensures ToBigEndian(n, 2) == [n / 256 % 256, n % 256]
  {
    assert ToBigEndian(n / 256, 1) == [n / 256 % 256];
  }

  /** The eight bytes of a long length, most significant first. */
  method WriteLong(len: nat) returns (field: seq<byte>)
    ensures field == [127] + ToBigEndian(len, 8)
  {
    field := [127];
    var i := 8;
    while i > 0
      invariant 0 <= i <= 8
      invariant field == [127] + ToBigEndian(ShiftRight(len, i), 8 - i)
    {
      i := i - 1;
      field := field + [ShiftRight(len, i) % 256];
    }
  }

  /** The frame writer as the source runs it. */
  method WriteFrame(first: byte, payload: seq<byte>) returns (frame: seq<byte>)
    ensures frame == ServerFrame(first, payload)
  {
    hide ToBigEndian;
    frame := [first];
    var len := |payload|;
    if len <= 125 {
      frame := frame + [len];
    } else if len <= 65535 {
      frame := frame + [126];
      frame := frame + [len / 256 % 256];
      frame := frame + [len % 256];
      ToBigEndianTwo(len);
    } else {
      var field := WriteLong(len);
      frame := frame + field;
    }
    frame := frame + payload;
  }

  // ---------- Masking ----------

  type MaskKey = k: seq<byte> | |k| == 4 witness [0, 0, 0, 0]

  function Mask(payload: seq<byte>, key: MaskKey): (r: seq<byte>)
    ensures |r| == |payload|
  {
    seq(|payload|, i requires 0 <= i < |payload| => Xor(payload[i], key[i % 4]))
  }

  lemma MaskInvolutive(payload: seq<byte>, key: MaskKey)
    ensures Mask(Mask(payload, key), key) == payload
  {
    forall i | 0 <= i < |payload|
      ensures Mask(Mask(payload, key), key)[i] == payload[i]
    {
      XorInvolutive(payload[i], key[i % 4]);
    }
  }

  /** Masking flips exactly the bits the key has set, the key's four bytes taken in turn. */
  lemma MaskBits(payload: seq<byte>, key: MaskKey, i: nat, k: nat)
    requires i < |payload| && k < 8
    ensures Bit(Mask(payload, key)[i], k) <==> Bit(payload[i], k) != Bit(key[i % 4], k)
  {
    XorBit(payload[i], key[i % 4], k);
  }

  /** Unmasking in place: each byte has exactly the bits flipped that its byte of the key has set. */
  method UnmaskPayload(payload: array<byte>, key: MaskKey)
    modifies payload
    ensures payload[..] == Mask(old(payload[..]), key)
    ensures forall i, k :: 0 <= i < payload.Length && 0 <= k < 8 ==>
              (Bit(payload[i], k) <==> Bit(old(payload[i]), k) != Bit(key[i % 4], k))
  {
    hide Bit, Xor;
    ghost var was := payload[..];
    for i := 0 to payload.Length
      invariant forall j :: 0 <= j < i ==> payload[j] == Xor(old(payload[j]), key[j % 4])
      invariant forall j :: i <= j < payload.Length ==> payload[j] == old(payload[j])
    {
      payload[i] := Xor(payload[i], key[i % 4]);
    }
    assert payload[..] == Mask(was, key);
    forall i, k | 0 <= i < payload.Length && 0 <= k < 8
      ensures Bit(payload[i], k) <==> Bit(old(payload[i]), k) != Bit(key[i % 4], k)
    {
      MaskBits(was, key, i, k);
    }
  }

  // ---------- A client's frames ----------

  datatype Frame = Frame(fin: bool, rsv1: bool, opcode: Opcode, key: MaskKey, payload: seq<byte>)

  /** Frames a client may put on the wire, as far as the header alone goes. */
  ghost predicate Encodable(f: Frame) {
    && |f.payload| < 0x8000_0000_0000_0000
    && (IsControl(f.opcode) ==> f.fin && |f.payload| <= 125)
  }

  function FirstByte(f: Frame): (b: byte)
  {
    (if f.fin then FIN as int else 0) + (if f.rsv1 then RSV1 as int else 0) + f.opcode
  }

  lemma FirstByteBits(f: Frame)
    ensures var b := FirstByte(f);
            (b >= 128 <==> f.fin) && (b / 64 % 2 == 1 <==> f.rsv1) && b / 16 % 4 == 0 && b % 16 == f.opcode
  {
  }

  function ClientFrame(f: Frame): (s: seq<byte>)
    ensures |s| >= 6
  {
    [FirstByte(f)] + LengthField(true, |f.payload|) + f.key + Mask(f.payload, f.key)
  }

  /** The length field is read back whatever follows it. */
  lemma LengthFieldRead(first: byte, maskBit: bool, length: nat, tail: seq<byte>)
    requires length < 0x8000_0000_0000_0000
    ensures var buffer := [first] + LengthField(maskBit, length) + tail;
            && |buffer| >= 2 + ExtendedLength(buffer[1])
            && 2 + ExtendedLength(buffer[1]) == 1 + |LengthField(maskBit, length)|
            && PayloadLength(buffer) == length
            && (buffer[1] >= 128 <==> maskBit)
  {
    hide ToBigEndian, BigEndian, Power256;
    Power256Values();
    if 125 < length <= 65535 {
      BigEndianRoundTrip(length, 2);
      LongFieldRead(first, if maskBit then 254 else 126, ToBigEndian(length, 2), tail);
    } else if 65535 < length {
      BigEndianRoundTrip(length, 8);
      LongFieldRead(first, if maskBit then 255 else 127, ToBigEndian(length, 8), tail);
    }
  }

  lemma LongFieldRead(first: byte, second: byte, digits: seq<byte>, tail: seq<byte>)
    ensures var buffer := [first] + ([second] + digits) + tail;
            && buffer[1] == second && |buffer| >= 2 + |digits| && buffer[2..2 + |digits|] == digits
  {
  }

  /** The header of a masked frame is read back whatever follows it. */
  lemma MaskedHeaderRead(first: byte, length: nat, key: MaskKey, tail: seq<byte>)
    requires length < 0x8000_0000_0000_0000 && length <= |tail|
    requires IsControl(first % 16) ==> first >= 128 && length <= 125
    ensures var buffer := [first] + LengthField(true, length) + (key + tail);
            var headerEnd := 5 + |LengthField(true, length)|;
            && Inspect(buffer) == Complete(Header(first >= 128, first % 16, true, length, key, headerEnd))
            && buffer[headerEnd..] == tail
  {
    var buffer := [first] + LengthField(true, length) + (key + tail);
    LengthFieldRead(first, true, length, key + tail);
    var lengthEnd := 1 + |LengthField(true, length)|;
    assert buffer[lengthEnd..] == key + tail;
    assert buffer[lengthEnd..lengthEnd + 4] == key;
    assert buffer[lengthEnd + 4..] == tail;
  }

  /** The bytes of a client's frame followed by `rest`, cut where the parser cuts them. */
  lemma ClientFrameParts(f: Frame, rest: seq<byte>)
    ensures var headerEnd := 5 + |LengthField(true, |f.payload|)|;
            var masked := Mask(f.payload, f.key);
            && ClientFrame(f) + rest == [FirstByte(f)] + LengthField(true, |f.payload|) + (f.key + (masked + rest))
            && |ClientFrame(f)| == headerEnd + |f.payload|
            && (masked + rest)[..|f.payload|] == masked && (masked + rest)[|f.payload|..] == rest
  {
  }

  /** A client's frame followed by anything is read back as that frame, and nothing more. */
  lemma ClientFrameRead(f: Frame, rest: seq<byte>)
    requires Encodable(f)
    ensures var buffer := ClientFrame(f) + rest;
            var end := |ClientFrame(f)|;
            var start := end - |f.payload|;
            && Inspect(buffer) == Complete(Header(f.fin, f.opcode, true, |f.payload|, f.key, start))
            && Mask(buffer[start..end], f.key) == f.payload
            && buffer[end..] == rest
  {
    var n := |f.payload|;
    var tail := Mask(f.payload, f.key) + rest;
    var buffer := [FirstByte(f)] + LengthField(true, n) + (f.key + tail);
    var end := |ClientFrame(f)|;
    var start := end - n;
    ClientFrameParts(f, rest);
    FirstByteBits(f);
    MaskedHeaderRead(FirstByte(f), n, f.key, tail);
    CutTail(buffer, start, n, tail);
    MaskInvolutive(f.payload, f.key);
  }

  lemma CutTail(buffer: seq<byte>, start: nat, n: nat, tail: seq<byte>)
    requires start <= |buffer| && buffer[start..] == tail && n <= |tail|
    ensures buffer[start..start + n] == tail[..n] && buffer[start + n..] == tail[n..]
  {
  }

  /** A frame the server writes is read back by the same parser, followed by anything. */
  lemma ServerFrameRead(first: byte, payload: seq<byte>, rest: seq<byte>)
    requires |payload| < 0x8000_0000_0000_0000
    requires IsControl(first % 16) ==> first >= 128 && |payload| <= 125
    ensures var buffer := ServerFrame(first, payload) + rest;
            var status := Inspect(buffer);
            && status.Complete?
            && var h := status.header;
               && h.fin == (first >= 128) && h.opcode == first % 16 && !h.masked
               && h.payloadLength == |payload|
               && buffer[h.headerLength..h.headerLength + h.payloadLength] == payload
               && buffer[h.headerLength + h.payloadLength..] == rest
  {
    var buffer := ServerFrame(first, payload) + rest;
    assert buffer == [first] + LengthField(false, |payload|) + (payload + rest);
    LengthFieldRead(first, false, |payload|, payload + rest);
    var lengthEnd := 1 + |LengthField(false, |payload|)|;
    assert buffer[lengthEnd..] == payload + rest;
    assert buffer[lengthEnd..lengthEnd + |payload|] == payload;
  }

  // ---------- The bytes on the wire ----------

  /** The length field as section 5.2 of RFC 6455 draws it: seven bits, or 126 and 16 bits, or 127 and 64 bits. */
  ghost predicate LengthOnWire(field: seq<byte>, maskBit: bool, length: nat) {
    var bit := if maskBit then 128 else 0;
    if length <= 125 then field == [bit + length]
    else if length <= 65535 then
      |field| == 3 && field[0] == bit + 126 && field[1] as nat * 256 + field[2] == length
    else
      && |field| == 9 && field[0] == bit + 127
      && length ==
         (field[1] as nat * 0x100_0000 + field[2] as nat * 0x1_0000 + field[3] as nat * 0x100 + field[4]) * 0x1_0000_0000 +
         (field[5] as nat * 0x100_0000 + field[6] as nat * 0x1_0000 + field[7] as nat * 0x100 + field[8])
  }

  lemma LengthFieldOnWire(maskBit: bool, length: nat)
    requires length < 0x8000_0000_0000_0000
    ensures LengthOnWire(LengthField(maskBit, length), maskBit, length)
  {
    hide ToBigEndian, BigEndian, Power256;
    Power256Values();
    if 125 < length <= 65535 {
      BigEndianRoundTrip(length, 2);
      BigEndianTwo(ToBigEndian(length, 2));
    } else if 65535 < length {
      BigEndianRoundTrip(length, 8);
      BigEndianEight(ToBigEndian(length, 8));
    }
  }

  /**
   A client's frame, byte by byte: FIN, RSV1 and opcode; the mask bit and the length; the key; and the
   payload with the key's bits flipped.
   */
  lemma ClientFrameOnWire(f: Frame)
    requires |f.payload| < 0x8000_0000_0000_0000
    ensures var wire, n := ClientFrame(f), |f.payload|;
            var start := |wire| - n;
            && start >= 6
            && wire[0] == (if f.fin then 128 else 0) + (if f.rsv1 then 64 else 0) + f.opcode
            && LengthOnWire(wire[1..start - 4], true, n)
            && wire[start - 4..start] == f.key
            && forall i, k :: 0 <= i < n && 0 <= k < 8 ==>
                 (Bit(wire[start + i], k) <==> Bit(f.payload[i], k) != Bit(f.key[i % 4], k))
  {
    hide LengthOnWire, Bit, Mask, LengthField;
    var wire, n := ClientFrame(f), |f.payload|;
    var field, masked := LengthField(true, n), Mask(f.payload, f.key);
    LengthFieldOnWire(true, n);
    assert wire[1..1 + |field|] == field;
    assert wire[1 + |field|..5 + |field|] == f.key;
    forall i, k | 0 <= i < n && 0 <= k < 8
      ensures Bit(wire[5 + |field| + i], k) <==> Bit(f.payload[i], k) != Bit(f.key[i % 4], k)
    {
      assert wire[5 + |field| + i] == masked[i];
      MaskBits(f.payload, f.key, i, k);
    }
  }

  /** A server's frame, byte by byte: no mask bit, no key, and the payload as it is. */
  lemma ServerFrameOnWire(first: byte, payload: seq<byte>)
    requires |payload| < 0x8000_0000_0000_0000
    ensures var wire := ServerFrame(first, payload);
            var start := |wire| - |payload|;
            start >= 2 && wire[0] == first && LengthOnWire(wire[1..start], false, |payload|) && wire[start..] == payload
  {
    hide LengthOnWire, LengthField;
    LengthFieldOnWire(false, |payload|);
    var wire, field := ServerFrame(first, payload), LengthField(false, |payload|);
    assert wire[1..1 + |field|] == field;
  }

  /** Any of the three forms of a length, whether or not a shorter one would do. */
  ghost predicate LengthForm(field: seq<byte>, maskBit: bool, length: nat) {
    var bit := if maskBit then 128 else 0;
    || (field == [bit + length] && length <= 125)
    || (|field| == 3 && field[0] == bit + 126 && field[1] as nat * 256 + field[2] == length)
    || (&& |field| == 9 && field[0] == bit + 127
        && length ==
           (field[1] as nat * 0x100_0000 + field[2] as nat * 0x1_0000 + field[3] as nat * 0x100 + field[4]) * 0x1_0000_0000 +
           (field[5] as nat * 0x100_0000 + field[6] as nat * 0x1_0000 + field[7] as nat * 0x100 + field[8]))
  }

  lemma LengthFormRead(first: byte, maskBit: bool, field: seq<byte>, length: nat, tail: seq<byte>)
    requires LengthForm(field, maskBit, length)
    ensures var buffer := [first] + field + tail;
            && 2 + ExtendedLength(buffer[1]) == 1 + |field|
            && PayloadLength(buffer) == length
            && (buffer[1] >= 128 <==> maskBit) && (buffer[1] % 128 == 127 <==> |field| == 9)
  {
    hide BigEndian;
    var buffer := [first] + field + tail;
    assert buffer[1] == field[0];
    if |field| == 3 {
      assert buffer[2..4] == field[1..];
      BigEndianTwo(field[1..]);
    } else if |field| == 9 {
      assert buffer[2..10] == field[1..];
      BigEndianEight(field[1..]);
    }
  }

  /**
   What the parser makes of any header, whatever follows it: refused if it is a control frame that is too
   long or not final, or its length does not fit 63 bits; else read field by field.
   */
  lemma HeaderRead(first: byte, maskBit: bool, field: seq<byte>, length: nat, key: seq<byte>, rest: seq<byte>)
    requires LengthForm(field, maskBit, length) && |key| == if maskBit then 4 else 0
    ensures var status := Inspect([first] + field + (key + rest));
            var header := Header(first >= 128, first % 16, maskBit, length, key, 1 + |field| + |key|);
            if |field| == 9 && length >= 0x8000_0000_0000_0000 then status.Invalid?
            else if first % 16 >= 8 && (length > 125 || first < 128) then status.Invalid?
            else status == if |rest| < length then NeedPayload(header) else Complete(header)
  {
    hide LengthForm, PayloadLength, ExtendedLength;
    var buffer := [first] + field + (key + rest);
    LengthFormRead(first, maskBit, field, length, key + rest);
    var lengthEnd := 1 + |field|;
    assert buffer[lengthEnd..] == key + rest;
    assert buffer[lengthEnd..lengthEnd + |key|] == key;
  }

  /** A header cut off inside its length, or before the key that the mask bit announces, is not read yet. */
  lemma HeaderCut(first: byte, maskBit: bool, field: seq<byte>, length: nat, key: seq<byte>)
    requires LengthForm(field, maskBit, length)
    ensures forall n :: 0 <= n < |field| ==> Inspect([first] + field[..n]).NeedHeader?
    ensures maskBit && |key| < 4 ==>
              var status := Inspect([first] + field + key);
              status.NeedHeader? || (status.Invalid? && (length >= 0x8000_0000_0000_0000 || first % 16 >= 8))
  {
    hide PayloadLength;
    LengthFormRead(first, maskBit, field, length, key);
    forall n | 0 <= n < |field|
      ensures Inspect([first] + field[..n]).NeedHeader?
    {
      if n > 0 {
        assert ([first] + field[..n])[1] == field[0];
      }
    }
  }
}
