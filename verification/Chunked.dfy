/**
 Chunked transfer coding (section 7.1 of RFC 9112): the encoder the server writes responses with and the
 incremental decoder the proxy reads upstream responses with.
 */
module Chunked {
  import opened Bytes
  import opened Collections

  const TAB: byte := '\t' as int
  const LF: byte := '\n' as int
  const CR: byte := '\r' as int
  const SPACE: byte := ' ' as int
  const SEMICOLON: byte := ';' as int

  const MAX_SIZE_LINE := 1024
  const MAX_TRAILER_LINE := 8192
  const MAX_HEX_DIGITS := 15

  // ---------- Chunk sizes ----------

  function TrimFront(s: seq<byte>): seq<byte> {
    if s != [] && (s[0] == SPACE || s[0] == TAB) then TrimFront(s[1..]) else s
  }

  function TrimBack(s: seq<byte>): (r: seq<byte>)
    ensures |r| <= |s|
  {
    if s != [] && (s[|s| - 1] == SPACE || s[|s| - 1] == TAB || s[|s| - 1] == CR) then TrimBack(s[..|s| - 1]) else s
  }

  function Trim(s: seq<byte>): seq<byte> {
    TrimBack(TrimFront(s))
  }

  /** The part of `s` before the first `c`, or all of it. */
  function Before(s: seq<byte>, c: byte): seq<byte> {
    if s == [] || s[0] == c then [] else [s[0]] + Before(s[1..], c)
  }

  function HexDigit(c: byte): Option<nat> {
    if 48 <= c <= 57 then Some(c - 48)
    else if 97 <= c <= 102 then Some(c - 97 + 10)
    else if 65 <= c <= 70 then Some(c - 65 + 10)
    else None
  }

  /** The number a string of hexadecimal digits denotes. */
  function HexValue(s: seq<byte>): Option<nat> {
    if s == [] then Some(0)
    else
      var high := HexValue(s[..|s| - 1]);
      var low := HexDigit(s[|s| - 1]);
      if high.Some? && low.Some? then Some(high.value * 16 + low.value) else None
  }

  /** The size a chunk's first line announces, its extensions ignored; None if it is malformed. */
  function ChunkSize(line: seq<byte>): Option<nat> {
    var hex := Trim(Before(Trim(line), SEMICOLON));
    if hex == [] || |hex| > MAX_HEX_DIGITS then None else HexValue(hex)
  }

  method TrimLine(s: seq<byte>) returns (r: seq<byte>)
    ensures r == Trim(s)
  {
    r := s;
    while r != [] && (r[0] == SPACE || r[0] == TAB)
      invariant TrimFront(r) == TrimFront(s)
      decreases |r|
    {
      r := r[1..];
    }
    while r != [] && (r[|r| - 1] == SPACE || r[|r| - 1] == TAB || r[|r| - 1] == CR)
      invariant TrimBack(r) == Trim(s)
      decreases |r|
    {
      r := r[..|r| - 1];
    }
  }

  method ParseSize(line: seq<byte>) returns (size: Option<nat>)
    ensures size == ChunkSize(line)
  {
    var trimmed := TrimLine(line);
    var hex := TrimLine(Before(trimmed, SEMICOLON));
    if hex == [] || |hex| > MAX_HEX_DIGITS {
      return None;
    }
    var value: nat := 0;
    for i := 0 to |hex|
      invariant HexValue(hex[..i]) == Some(value)
    {
      assert hex[..i + 1][..i] == hex[..i];
      var digit := HexDigit(hex[i]);
      if digit.None? {
        HexPrefixBad(hex, i + 1);
        return None;
      }
      value := value * 16 + digit.value;
    }
    assert hex[..|hex|] == hex;
    return Some(value);
  }

  lemma {:induction false} HexPrefixBad(s: seq<byte>, n: nat)
    requires n <= |s| && HexValue(s[..n]).None?
    ensures HexValue(s).None?
    decreases |s| - n
  {
    if n < |s| {
      assert s[..n + 1][..n] == s[..n];
      HexPrefixBad(s, n + 1);
    } else {
      assert s[..n] == s;
    }
  }

  // ---------- The decoder, one byte at a time ----------

  datatype Phase = Size | Data | DataEnd | Trailer | Finished | Failed

  /** `out` is everything decoded so far. */
  datatype Decoder = Decoder(phase: Phase, line: seq<byte>, remaining: nat, out: seq<byte>)

  const START := Decoder(Size, [], 0, [])

  function Take(d: Decoder, c: byte): Decoder {
    match d.phase
    case Size =>
      if c != LF then
        d.(line := d.line + [c], phase := if |d.line| + 1 > MAX_SIZE_LINE then Failed else Size)
      else (
        match ChunkSize(d.line)
        case None => d.(phase := Failed)
        case Some(n) => d.(line := [], remaining := n, phase := if n == 0 then Trailer else Data))
    case Data =>
      if d.remaining == 0 then d.(phase := DataEnd)
      else d.(out := d.out + [c], remaining := d.remaining - 1, phase := if d.remaining == 1 then DataEnd else Data)
    case DataEnd => d.(phase := if c == LF then Size else if c == CR then DataEnd else Failed)
    case Trailer =>
      if c != LF then
        d.(line := d.line + [c], phase := if |d.line| + 1 > MAX_TRAILER_LINE then Failed else Trailer)
      else d.(line := [], phase := if Trim(d.line) == [] then Finished else Trailer)
    case Finished => d
    case Failed => d
  }

  function TakeAll(d: Decoder, s: seq<byte>): Decoder
    decreases |s|
  {
    if s == [] then d else TakeAll(Take(d, s[0]), s[1..])
  }

  /** A chunk is announced with at least one byte, so the data phase always has some left. */
  predicate Valid(d: Decoder) {
    d.phase.Data? ==> d.remaining > 0
  }

  lemma {:induction false} TakeAllAppend(d: Decoder, a: seq<byte>, b: seq<byte>)
    ensures TakeAll(d, a + b) == TakeAll(TakeAll(d, a), b)
    decreases |a|
  {
    hide Take;
    if a == [] {
      assert a + b == b;
    } else {
      TakeAllAppend(Take(d, a[0]), a[1..], b);
      assert (a + b)[0] == a[0] && (a + b)[1..] == a[1..] + b;
    }
  }

  lemma {:induction false} TakeAllDead(d: Decoder, s: seq<byte>)
    requires d.phase.Finished? || d.phase.Failed?
    ensures TakeAll(d, s) == d
    decreases |s|
  {
    if s != [] {
      TakeAllDead(d, s[1..]);
    }
  }

  /** A run of data bytes goes to the output as it is. */
  lemma {:induction false} TakeAllData(d: Decoder, s: seq<byte>)
    requires d.phase.Data? && |s| <= d.remaining && d.remaining > 0
    ensures TakeAll(d, s) ==
            d.(out := d.out + s, remaining := d.remaining - |s|, phase := if |s| == d.remaining then DataEnd else Data)
    decreases |s|
  {
    if s == [] {
      assert d.out + s == d.out;
    } else {
      var d1 := Take(d, s[0]);
      if |s| == 1 {
        assert s[1..] == [];
        assert s == [s[0]];
      } else {
        TakeAllData(d1, s[1..]);
        assert d1.out + s[1..] == d.out + s;
      }
    }
  }

  // ---------- The decoder object ----------

  datatype Result = NeedMore | Done | Error

  class ChunkedDecoder {
    var phase: Phase
    var line: seq<byte>
    var remaining: nat

    function Abs(out: seq<byte>): Decoder
      reads this
    {
      Decoder(phase, line, remaining, out)
    }

    constructor ()
      ensures Abs([]) == START
    {
      phase, line, remaining := Size, [], 0;
    }

    /** Decodes all of `data`; runs of chunk data are copied at once. */
    method Feed(data: seq<byte>, output: seq<byte>) returns (result: Result, out: seq<byte>)
      requires Valid(Abs(output)) && phase != Failed
      modifies this
      ensures result.Error? <==> TakeAll(old(Abs(output)), data).phase.Failed?
      ensures result.Done? <==> TakeAll(old(Abs(output)), data).phase.Finished?
      ensures !result.Error? ==> Abs(out) == TakeAll(old(Abs(output)), data) && Valid(Abs(out))
    {
      ghost var start := Abs(output);
      out := output;
      var i := 0;
      while i < |data|
        invariant 0 <= i <= |data|
        invariant Valid(Abs(out)) && !phase.Failed?
        invariant TakeAll(Abs(out), data[i..]) == TakeAll(start, data)
        decreases |data| - i
      {
        ghost var here := Abs(out);
        if phase.Data? {
          var n := if remaining <= |data| - i then remaining else |data| - i;
          TakeAllData(here, data[i..i + n]);
          TakeAllAppend(here, data[i..i + n], data[i + n..]);
          assert data[i..] == data[i..i + n] + data[i + n..];
          out := out + data[i..i + n];
          i := i + n;
          remaining := remaining - n;
          if remaining == 0 {
            phase := DataEnd;
          }
        } else if phase.Finished? {
          TakeAllDead(here, data[i..]);
          return Done, out;
        } else {
          var c := data[i];
          assert data[i..][0] == c && data[i..][1..] == data[i + 1..];
          TakeAllDead(Take(here, c).(phase := Failed), data[i + 1..]);
          i := i + 1;
          match phase
          case Size =>
            if c != LF {
              line := line + [c];
              if |line| > MAX_SIZE_LINE {
                return Error, out;
              }
            } else {
              var size := ParseSize(line);
              if size.None? {
                return Error, out;
              }
              line := [];
              remaining := size.value;
              phase := if size.value == 0 then Trailer else Data;
            }
          case DataEnd =>
            if c == LF {
              phase := Size;
            } else if c != CR {
              return Error, out;
            }
          case Trailer =>
            if c != LF {
              line := line + [c];
              if |line| > MAX_TRAILER_LINE {
                return Error, out;
              }
            } else {
              var trimmed := TrimLine(line);
              line := [];
              if trimmed == [] {
                phase := Finished;
                TakeAllDead(Abs(out), data[i..]);
                return Done, out;
              }
            }
        }
      }
      assert data[i..] == [];
      result := if phase.Finished? then Done else NeedMore;
    }
  }

  // ---------- Any legal chunked message ----------

  /** A chunk as any sender may write it: a size line, with whatever extensions and padding, and data. */
  datatype WireChunk = WireChunk(line: seq<byte>, data: seq<byte>)

  ghost predicate IsLine(line: seq<byte>, limit: nat) {
    LF !in line && |line| <= limit
  }

  predicate IsBlank(c: byte) {
    c == SPACE || c == TAB
  }

  predicate IsSpace(c: byte) {
    IsBlank(c) || c == CR
  }

  // ---------- Hexadecimal numbers on paper ----------

  const LOWER_DIGITS := "0123456789abcdef"
  const UPPER_DIGITS := "0123456789ABCDEF"

  /** A hexadecimal digit, written in either case. */
  datatype Digit = Digit(value: nat, upper: bool)

  ghost predicate AreDigits(ds: seq<Digit>) {
    forall i :: 0 <= i < |ds| ==> ds[i].value < 16
  }

  function DigitChar(d: Digit): (c: byte)
    requires d.value < 16
  {
    if d.upper then UPPER_DIGITS[d.value] as int else LOWER_DIGITS[d.value] as int
  }

  ghost function Written(ds: seq<Digit>): (s: seq<byte>)
    requires AreDigits(ds)
    ensures |s| == |ds|
  {
    if ds == [] then [] else Written(ds[..|ds| - 1]) + [DigitChar(ds[|ds| - 1])]
  }

  /** The number that digits denote by their places. */
  ghost function Denoted(ds: seq<Digit>): nat {
    if ds == [] then 0 else Denoted(ds[..|ds| - 1]) * 16 + ds[|ds| - 1].value
  }

  /** The decoder reads each digit in both cases, and no other byte. */
  lemma HexDigitIff(c: byte, n: nat)
    ensures HexDigit(c) == Some(n) <==> n < 16 && (c == DigitChar(Digit(n, false)) || c == DigitChar(Digit(n, true)))
  {
  }

  /** A number written in any mix of cases is read as that number. */
  lemma {:induction false} WrittenIsRead(ds: seq<Digit>)
    requires AreDigits(ds)
    ensures HexValue(Written(ds)) == Some(Denoted(ds))
    ensures forall i :: 0 <= i < |ds| ==> Written(ds)[i] == DigitChar(ds[i])
    decreases |ds|
  {
    hide DigitChar, HexDigit;
    if ds != [] {
      var n := |ds| - 1;
      WrittenIsRead(ds[..n]);
      assert Written(ds)[..n] == Written(ds[..n]);
      HexDigitIff(DigitChar(ds[n]), ds[n].value);
    }
  }

  /** And nothing else is read as a number. */
  lemma {:induction false} ReadIsWritten(s: seq<byte>) returns (ds: seq<Digit>)
    requires HexValue(s).Some?
    ensures AreDigits(ds) && Written(ds) == s && HexValue(s) == Some(Denoted(ds))
    decreases |s|
  {
    hide DigitChar, HexDigit;
    ds := [];
    if s != [] {
      var n := |s| - 1;
      var front := ReadIsWritten(s[..n]);
      var v := HexDigit(s[n]).value;
      HexDigitIff(s[n], v);
      var d := Digit(v, s[n] != DigitChar(Digit(v, false)));
      ds := front + [d];
      assert ds[..n] == front;
      assert s == s[..n] + [s[n]];
    }
  }

  /** What a line announces a size with: blanks, the digits, blanks or carriage returns, and an extension. */
  datatype SizeLine = SizeLine(lead: seq<byte>, digits: seq<byte>, trail: seq<byte>, extension: seq<byte>)

  ghost predicate LegalSizeLine(l: SizeLine) {
    && (forall i :: 0 <= i < |l.lead| ==> IsBlank(l.lead[i]))
    && 1 <= |l.digits| <= 15 && (forall i :: 0 <= i < |l.digits| ==> HexDigit(l.digits[i]).Some?)
    && (forall i :: 0 <= i < |l.trail| ==> IsSpace(l.trail[i]))
    && (l.extension == [] || l.extension[0] == SEMICOLON)
  }

  function LineBytes(l: SizeLine): seq<byte> {
    l.lead + (l.digits + (l.trail + l.extension))
  }

  /** The line announces n: its digits, in any mix of cases, denote n. */
  ghost predicate Announces(line: seq<byte>, n: nat) {
    exists l: SizeLine, ds: seq<Digit> ::
      LegalSizeLine(l) && line == LineBytes(l) && AreDigits(ds) && l.digits == Written(ds) && Denoted(ds) == n
  }

  ghost predicate AllSpace(s: seq<byte>) {
    forall i :: 0 <= i < |s| ==> IsSpace(s[i])
  }

  ghost predicate LegalChunk(c: WireChunk) {
    IsLine(c.line, 1024) && c.data != [] && Announces(c.line, |c.data|)
  }

  function ChunkBytes(c: WireChunk): seq<byte> {
    c.line + [LF] + c.data + [CR, LF]
  }

  function ChunksBytes(cs: seq<WireChunk>): seq<byte> {
    if cs == [] then [] else ChunkBytes(cs[0]) + ChunksBytes(cs[1..])
  }

  function DataOf(cs: seq<WireChunk>): seq<byte> {
    if cs == [] then [] else cs[0].data + DataOf(cs[1..])
  }

  function LinesBytes(lines: seq<seq<byte>>): seq<byte> {
    if lines == [] then [] else lines[0] + [LF] + LinesBytes(lines[1..])
  }

  /** Trailer fields: no line of them is blank. */
  ghost predicate LegalTrailers(lines: seq<seq<byte>>) {
    forall i :: 0 <= i < |lines| ==> IsLine(lines[i], 8192) && !AllSpace(lines[i])
  }

  /** The line that announces the last chunk, the trailer fields, and a blank line. */
  ghost predicate LegalEnd(last: seq<byte>, trailers: seq<seq<byte>>, blank: seq<byte>) {
    && IsLine(last, 1024) && Announces(last, 0)
    && LegalTrailers(trailers)
    && IsLine(blank, 8192) && AllSpace(blank)
  }

  // ---------- Which lines announce which size ----------

  lemma {:induction false} TrimFrontOff(lead: seq<byte>, s: seq<byte>)
    requires (forall i :: 0 <= i < |lead| ==> IsBlank(lead[i])) && (s == [] || !IsBlank(s[0]))
    ensures TrimFront(lead + s) == s
  {
    if lead == [] {
      assert lead + s == s;
    } else {
      TrimFrontOff(lead[1..], s);
      assert (lead + s)[1..] == lead[1..] + s;
    }
  }

  lemma {:induction false} TrimBackOff(s: seq<byte>, trail: seq<byte>)
    requires AllSpace(trail) && (s == [] || !IsSpace(s[|s| - 1]))
    ensures TrimBack(s + trail) == s
    decreases |trail|
  {
    if trail == [] {
      assert s + trail == s;
    } else {
      var n := |trail| - 1;
      TrimBackOff(s, trail[..n]);
      assert (s + trail)[..|s| + n] == s + trail[..n];
    }
  }

  /** Trimming takes blanks off the front. */
  lemma {:induction false} TrimFrontParts(s: seq<byte>) returns (lead: seq<byte>)
    ensures s == lead + TrimFront(s) && forall i :: 0 <= i < |lead| ==> IsBlank(lead[i])
    ensures TrimFront(s) == [] || !IsBlank(TrimFront(s)[0])
  {
    lead := [];
    if s != [] && IsBlank(s[0]) {
      var rest := TrimFrontParts(s[1..]);
      lead := [s[0]] + rest;
      assert s == [s[0]] + s[1..];
    }
  }

  /** Trimming takes blanks and carriage returns off the back. */
  lemma {:induction false} TrimBackParts(s: seq<byte>) returns (trail: seq<byte>)
    ensures s == TrimBack(s) + trail && AllSpace(trail)
    ensures TrimBack(s) == [] || !IsSpace(TrimBack(s)[|TrimBack(s)| - 1])
    decreases |s|
  {
    trail := [];
    if s != [] && IsSpace(s[|s| - 1]) {
      var n := |s| - 1;
      assert TrimBack(s) == TrimBack(s[..n]);
      var front := TrimBackParts(s[..n]);
      hide TrimBack;
      trail := front + [s[n]];
      assert s == s[..n] + [s[n]];
      AppendAssoc(TrimBack(s[..n]), front, [s[n]]);
    }
  }

  lemma {:induction false} BeforeParts(s: seq<byte>, c: byte) returns (rest: seq<byte>)
    ensures s == Before(s, c) + rest && c !in Before(s, c) && (rest == [] || rest[0] == c)
  {
    rest := s;
    if s != [] && s[0] != c {
      rest := BeforeParts(s[1..], c);
      assert s == [s[0]] + s[1..];
    }
  }

  lemma {:induction false} BeforeOff(s: seq<byte>, c: byte, rest: seq<byte>)
    requires c !in s && (rest == [] || rest[0] == c)
    ensures Before(s + rest, c) == s
  {
    if s == [] {
      assert s + rest == rest;
    } else {
      BeforeOff(s[1..], c, rest);
      assert (s + rest)[0] == s[0] && (s + rest)[1..] == s[1..] + rest;
    }
  }

  /** A line is blank for the decoder exactly when it is made of blanks and carriage returns. */
  lemma BlankLine(s: seq<byte>)
    ensures Trim(s) == [] <==> AllSpace(s)
  {
    var lead := TrimFrontParts(s);
    var trail := TrimBackParts(TrimFront(s));
    var kept := Trim(s);
    assert s == lead + (kept + trail);
    if kept != [] {
      var k := |lead| + |kept| - 1;
      assert s[k] == kept[|kept| - 1];
    } else {
      assert s == lead + trail;
    }
  }

  /** What is left of a line that announces a size, digits and trail and perhaps a shorter extension. */
  lemma TrimmedLine(l: SizeLine) returns (extension: seq<byte>)
    requires LegalSizeLine(l)
    ensures l.extension == [] ==> Trim(LineBytes(l)) == l.digits
    ensures l.extension != [] ==>
              extension != [] && extension[0] == SEMICOLON && Trim(LineBytes(l)) == l.digits + l.trail + extension
  {
    hide TrimFront, TrimBack, HexDigit, IsSpace, IsBlank;
    var s := l.digits + (l.trail + l.extension);
    assert s[0] == l.digits[0];
    NotASpace(l.digits[0]);
    NotASpace(l.digits[|l.digits| - 1]);
    TrimFrontOff(l.lead, s);
    extension := [];
    if l.extension == [] {
      assert l.trail + l.extension == l.trail;
      TrimBackOff(l.digits, l.trail);
    } else {
      extension := ExtensionTrimmed(l.digits + l.trail, l.extension);
      AppendAssoc(l.digits, l.trail, l.extension);
    }
  }

  lemma ExtensionTrimmed(front: seq<byte>, whole: seq<byte>) returns (extension: seq<byte>)
    requires whole != [] && whole[0] == SEMICOLON
    ensures extension != [] && extension[0] == SEMICOLON && TrimBack(front + whole) == front + extension
  {
    var trail := TrimBackParts(whole[1..]);
    hide TrimBack;
    extension := [SEMICOLON] + TrimBack(whole[1..]);
    assert whole == extension + trail;
    AppendAssoc(front, extension, trail);
    assert (front + extension)[|front + extension| - 1] == extension[|extension| - 1];
    TrimBackOff(front + extension, trail);
  }

  lemma NotASpace(c: byte)
    requires HexDigit(c).Some?
    ensures !IsSpace(c) && !IsBlank(c) && c != SEMICOLON
  {
  }

  lemma DigitsTrimmed(l: SizeLine)
    requires LegalSizeLine(l)
    ensures Trim(l.digits + l.trail) == l.digits && SEMICOLON !in l.digits + l.trail
  {
    NotASpace(l.digits[0]);
    NotASpace(l.digits[|l.digits| - 1]);
    TrimFrontOff([], l.digits + l.trail);
    assert [] + (l.digits + l.trail) == l.digits + l.trail;
    TrimBackOff(l.digits, l.trail);
    forall i | 0 <= i < |l.digits|
      ensures l.digits[i] != SEMICOLON
    {
      NotASpace(l.digits[i]);
    }
  }

  lemma AnnouncedIsRead(l: SizeLine)
    requires LegalSizeLine(l)
    ensures ChunkSize(LineBytes(l)) == HexValue(l.digits)
  {
    hide Trim, Before, HexValue, LineBytes;
    var extension := TrimmedLine(l);
    DigitsTrimmed(l);
    DigitsTrimmed(l.(trail := []));
    assert l.digits + [] == l.digits;
    if l.extension == [] {
      BeforeOff(l.digits, SEMICOLON, []);
    } else {
      BeforeOff(l.digits + l.trail, SEMICOLON, extension);
    }
  }

  lemma {:induction false} HexDigitsOnly(s: seq<byte>)
    requires HexValue(s).Some?
    ensures forall i :: 0 <= i < |s| ==> HexDigit(s[i]).Some?
    decreases |s|
  {
    if s != [] {
      var n := |s| - 1;
      HexDigitsOnly(s[..n]);
      assert forall i :: 0 <= i < n ==> s[..n][i] == s[i];
    }
  }

  /** The parts of a line the decoder reads a size from. */
  lemma ReadIsAnnounced(line: seq<byte>) returns (l: SizeLine)
    requires ChunkSize(line).Some?
    ensures LegalSizeLine(l) && line == LineBytes(l) && HexValue(l.digits) == ChunkSize(line)
  {
    hide HexValue, Before, TrimFront, TrimBack, HexDigit, IsSpace, IsBlank;
    var lead := TrimFrontParts(line);
    var tail := TrimBackParts(TrimFront(line));
    var trimmed := Trim(line);
    var extension := BeforeParts(trimmed, SEMICOLON);
    var size := Before(trimmed, SEMICOLON);
    assert size != [] ==> size[0] == trimmed[0] && trimmed[0] == TrimFront(line)[0];
    var trail := TrimSize(size);
    var digits := Trim(size);
    HexDigitsOnly(digits);
    AppendAssoc(digits, trail, extension + tail);
    AppendAssoc(size, extension, tail);
    if extension == [] {
      l := SizeLine(lead, digits, trail + tail, []);
      assert trail + tail + [] == trail + tail && [] + tail == tail;
    } else {
      l := SizeLine(lead, digits, trail, extension + tail);
    }
  }

  lemma TrimSize(size: seq<byte>) returns (trail: seq<byte>)
    requires size == [] || !IsBlank(size[0])
    ensures size == Trim(size) + trail && AllSpace(trail)
  {
    TrimFrontOff([], size);
    assert [] + size == size;
    trail := TrimBackParts(size);
  }

  /** The decoder reads a size from exactly the lines that announce it. */
  lemma SizeLineIff(line: seq<byte>, n: nat)
    ensures ChunkSize(line) == Some(n) <==> Announces(line, n)
  {
    hide ChunkSize, LegalSizeLine, LineBytes, HexValue, Written, Denoted, AreDigits;
    if ChunkSize(line) == Some(n) {
      var l := ReadIsAnnounced(line);
      var ds := ReadIsWritten(l.digits);
    } else if Announces(line, n) {
      var l, ds :| LegalSizeLine(l) && line == LineBytes(l) && AreDigits(ds) && l.digits == Written(ds) && Denoted(ds) == n;
      WrittenIsRead(ds);
      AnnouncedIsRead(l);
    }
  }

  lemma {:induction false} TakeAllLine(d: Decoder, s: seq<byte>)
    requires d.phase.Size? || d.phase.Trailer?
    requires LF !in s && |d.line| + |s| <= if d.phase.Size? then MAX_SIZE_LINE else MAX_TRAILER_LINE
    ensures TakeAll(d, s) == d.(line := d.line + s)
    decreases |s|
  {
    if s == [] {
      assert d.line + s == d.line;
    } else {
      TakeAllLine(Take(d, s[0]), s[1..]);
      assert d.line + [s[0]] + s[1..] == d.line + s;
    }
  }

  lemma TakeOne(d: Decoder, c: byte)
    ensures TakeAll(d, [c]) == Take(d, c)
  {
    assert [c][1..] == [];
  }

  /** A line and its line feed. */
  lemma TakeWholeLine(d: Decoder, line: seq<byte>)
    requires d.line == []
    requires (d.phase.Size? && IsLine(line, MAX_SIZE_LINE)) || (d.phase.Trailer? && IsLine(line, MAX_TRAILER_LINE))
    ensures TakeAll(d, line + [LF]) == Take(d.(line := line), LF)
  {
    TakeAllLine(d, line);
    TakeAllAppend(d, line, [LF]);
    TakeOne(d.(line := line), LF);
    assert [] + line == line;
  }

  lemma TakeChunk(out: seq<byte>, c: WireChunk)
    requires LegalChunk(c)
    ensures TakeAll(Decoder(Size, [], 0, out), ChunkBytes(c)) == Decoder(Size, [], 0, out + c.data)
  {
    SizeLineIff(c.line, |c.data|);
    hide Announces;
    var d := Decoder(Size, [], 0, out);
    var d1 := Decoder(Data, [], |c.data|, out);
    var d2 := Decoder(DataEnd, [], 0, out + c.data);
    TakeWholeLine(d, c.line);
    TakeAllData(d1, c.data);
    TakeAllAppend(d, c.line + [LF], c.data + [CR, LF]);
    TakeAllAppend(d1, c.data, [CR, LF]);
    assert ChunkBytes(c) == c.line + [LF] + (c.data + [CR, LF]);
    assert [CR, LF][1..] == [LF];
    TakeOne(d2, LF);
  }

  lemma {:induction false} TakeChunks(out: seq<byte>, cs: seq<WireChunk>)
    requires forall i :: 0 <= i < |cs| ==> LegalChunk(cs[i])
    ensures TakeAll(Decoder(Size, [], 0, out), ChunksBytes(cs)) == Decoder(Size, [], 0, out + DataOf(cs))
    decreases |cs|
  {
    hide Take, ChunkBytes, LegalChunk;
    if cs == [] {
      assert out + DataOf(cs) == out;
    } else {
      TakeChunk(out, cs[0]);
      TakeAllAppend(Decoder(Size, [], 0, out), ChunkBytes(cs[0]), ChunksBytes(cs[1..]));
      TakeChunks(out + cs[0].data, cs[1..]);
      assert out + cs[0].data + DataOf(cs[1..]) == out + DataOf(cs);
    }
  }

  lemma {:induction false} TakeTrailers(out: seq<byte>, lines: seq<seq<byte>>)
    requires LegalTrailers(lines)
    ensures TakeAll(Decoder(Trailer, [], 0, out), LinesBytes(lines)) == Decoder(Trailer, [], 0, out)
    decreases |lines|
  {
    if lines != [] {
      var d := Decoder(Trailer, [], 0, out);
      BlankLine(lines[0]);
      TakeWholeLine(d, lines[0]);
      TakeAllAppend(d, lines[0] + [LF], LinesBytes(lines[1..]));
      TakeTrailers(out, lines[1..]);
    }
  }

  lemma TakeEnd(out: seq<byte>, last: seq<byte>, trailers: seq<seq<byte>>, blank: seq<byte>)
    requires LegalEnd(last, trailers, blank)
    ensures TakeAll(Decoder(Size, [], 0, out), last + [LF] + LinesBytes(trailers) + (blank + [LF])) ==
            Decoder(Finished, [], 0, out)
  {
    var d := Decoder(Size, [], 0, out);
    var d1 := Decoder(Trailer, [], 0, out);
    SizeLineIff(last, 0);
    BlankLine(blank);
    TakeWholeLine(d, last);
    TakeAllAppend(d, last + [LF], LinesBytes(trailers));
    TakeTrailers(out, trailers);
    TakeAllAppend(d, last + [LF] + LinesBytes(trailers), blank + [LF]);
    TakeWholeLine(d1, blank);
  }

  /** Every legal chunked message decodes to its data, whatever follows it on the wire. */
  lemma LegalMessageDecodes(
    cs: seq<WireChunk>, last: seq<byte>, trailers: seq<seq<byte>>, blank: seq<byte>, rest: seq<byte>)
    requires forall i :: 0 <= i < |cs| ==> LegalChunk(cs[i])
    requires LegalEnd(last, trailers, blank)
    ensures var end := last + [LF] + LinesBytes(trailers) + (blank + [LF]);
            TakeAll(START, ChunksBytes(cs) + end + rest) == Decoder(Finished, [], 0, DataOf(cs))
  {
    var end := last + [LF] + LinesBytes(trailers) + (blank + [LF]);
    TakeChunks([], cs);
    assert [] + DataOf(cs) == DataOf(cs);
    TakeEnd(DataOf(cs), last, trailers, blank);
    TakeAllAppend(START, ChunksBytes(cs), end);
    TakeAllAppend(START, ChunksBytes(cs) + end, rest);
    TakeAllDead(Decoder(Finished, [], 0, DataOf(cs)), rest);
  }

  /** A chunk whose size line is malformed, or whose data is not followed by a line end, is refused for good. */
  lemma MalformedChunkFails(out: seq<byte>, line: seq<byte>, data: seq<byte>, c: byte, rest: seq<byte>)
    requires IsLine(line, 1024)
    ensures (forall n :: !Announces(line, n)) ==> TakeAll(Decoder(Size, [], 0, out), line + [LF] + rest).phase.Failed?
    ensures data != [] && Announces(line, |data|) && c != CR && c != LF ==>
              TakeAll(Decoder(Size, [], 0, out), line + [LF] + (data + ([c] + rest))).phase.Failed?
  {
    hide Announces;
    var d := Decoder(Size, [], 0, out);
    TakeWholeLine(d, line);
    SizeLineIff(line, |data|);
    if ChunkSize(line).Some? {
      SizeLineIff(line, ChunkSize(line).value);
    }
    if ChunkSize(line).None? {
      TakeAllAppend(d, line + [LF], rest);
      TakeAllDead(Take(d.(line := line), LF), rest);
    } else if data != [] && ChunkSize(line) == Some(|data|) && c != CR && c != LF {
      var d1 := Decoder(Data, [], |data|, out);
      TakeAllAppend(d, line + [LF], data + ([c] + rest));
      TakeAllData(d1, data);
      TakeAllAppend(d1, data, [c] + rest);
      assert ([c] + rest)[0] == c && ([c] + rest)[1..] == rest;
      TakeAllDead(Decoder(Failed, [], 0, out + data), rest);
    }
  }

  /** A size line of more than 1024 bytes, or a trailer line of more than 8192, is refused without waiting for its end. */
  lemma LongLineFails(d: Decoder, line: seq<byte>, rest: seq<byte>)
    requires d.line == [] && (d.phase.Size? || d.phase.Trailer?)
    requires LF !in line && |line| == if d.phase.Size? then 1025 else 8193
    ensures TakeAll(d, line + rest).phase.Failed?
  {
    var n := |line| - 1;
    TakeAllLine(d, line[..n]);
    TakeAllAppend(d, line[..n], [line[n]]);
    TakeOne(d.(line := [] + line[..n]), line[n]);
    assert line == line[..n] + [line[n]];
    TakeAllAppend(d, line, rest);
    TakeAllDead(TakeAll(d, line), rest);
  }

  // ---------- The server's encoder ----------

  function HexChar(n: nat): byte
    requires n < 16
  {
    if n < 10 then 48 + n else 97 + n - 10
  }

  /** Lower-case hexadecimal without leading zeros. */
  function HexDigits(n: nat): (s: seq<byte>)
    ensures s != []
  {
    if n < 16 then [HexChar(n)] else HexDigits(n / 16) + [HexChar(n % 16)]
  }

  function WriteChunk(chunk: seq<byte>): seq<byte> {
    HexDigits(|chunk|) + [CR, LF] + chunk + [CR, LF]
  }

  const END: seq<byte> := [48, CR, LF, CR, LF]

  function WriteAll(chunks: seq<seq<byte>>): seq<byte> {
    if chunks == [] then [] else WriteChunk(chunks[0]) + WriteAll(chunks[1..])
  }

  lemma {:induction false} HexRoundTrip(n: nat)
    ensures HexValue(HexDigits(n)) == Some(n)
    ensures forall i :: 0 <= i < |HexDigits(n)| ==> HexDigit(HexDigits(n)[i]).Some?
  {
    if n < 16 {
      assert HexDigits(n)[..0] == [];
    } else {
      HexRoundTrip(n / 16);
      var s := HexDigits(n);
      assert s[..|s| - 1] == HexDigits(n / 16);
    }
  }

  lemma HexCharIs(n: nat)
    requires n < 16
    ensures HexChar(n) == DigitChar(Digit(n, false))
  {
  }

  /** The encoder prints lower-case digits that denote the number, without leading zeros. */
  lemma {:induction false} PrintedDigits(n: nat) returns (ds: seq<Digit>)
    ensures AreDigits(ds) && Denoted(ds) == n && HexDigits(n) == Written(ds)
    ensures ds != [] && (forall i :: 0 <= i < |ds| ==> !ds[i].upper) && (n > 0 ==> ds[0].value > 0)
  {
    HexCharIs(n % 16);
    hide DigitChar, HexChar;
    if n < 16 {
      ds := [Digit(n, false)];
      assert ds[..0] == [];
    } else {
      var front := PrintedDigits(n / 16);
      ds := front + [Digit(n % 16, false)];
      assert ds[..|front|] == front;
    }
  }

  function Power16(k: nat): nat {
    if k == 0 then 1 else 16 * Power16(k - 1)
  }

  /** A number has at most k digits exactly when it is below 16 to the k. */
  lemma {:induction false} HexLength(n: nat, k: nat)
    requires k > 0
    ensures |HexDigits(n)| <= k <==> n < Power16(k)
    decreases n, k
  {
    if n < 16 {
      Power16Positive(k - 1);
    } else if k > 1 {
      HexLength(n / 16, k - 1);
    }
  }

  lemma {:induction false} Power16Positive(k: nat)
    ensures Power16(k) >= 1
  {
    if k > 0 {
      Power16Positive(k - 1);
    }
  }

  lemma {:induction false} BeforeNothing(s: seq<byte>, c: byte)
    requires c !in s
    ensures Before(s, c) == s
  {
    if s != [] {
      BeforeNothing(s[1..], c);
    }
  }

  /** Hexadecimal digits survive trimming; the carriage return behind them does not. */
  lemma TrimHex(s: seq<byte>)
    requires s != [] && HexDigit(s[0]).Some? && HexDigit(s[|s| - 1]).Some?
    ensures Trim(s) == s && Trim(s + [CR]) == s
  {
    var line := s + [CR];
    assert line[0] == s[0] && line[..|line| - 1] == s;
  }

  /** The size line the server writes, without its line feed. */
  lemma SizeLineRead(n: nat)
    ensures var line := HexDigits(n) + [CR];
            && LF !in line
            && ChunkSize(line) == if n < Power16(MAX_HEX_DIGITS) then Some(n) else None
  {
    hide HexDigits, Power16, HexValue, Trim, Before;
    var s := HexDigits(n);
    HexRoundTrip(n);
    HexLength(n, MAX_HEX_DIGITS);
    TrimHex(s);
    forall i | 0 <= i < |s|
      ensures s[i] != SEMICOLON && s[i] != LF
    {
      assert HexDigit(s[i]).Some?;
    }
    BeforeNothing(s, SEMICOLON);
  }

  /** The chunks before the first empty one. */
  function UpToEmpty(chunks: seq<seq<byte>>): (r: seq<seq<byte>>)
    ensures r <= chunks
  {
    if chunks == [] || chunks[0] == [] then [] else [chunks[0]] + UpToEmpty(chunks[1..])
  }

  ghost predicate Writable(chunks: seq<seq<byte>>) {
    forall i :: 0 <= i < |chunks| ==> |chunks[i]| < Power16(15)
  }

  lemma WriteChunkTaken(out: seq<byte>, chunk: seq<byte>)
    requires chunk != [] && |chunk| < Power16(MAX_HEX_DIGITS)
    ensures TakeAll(Decoder(Size, [], 0, out), WriteChunk(chunk)) == Decoder(Size, [], 0, out + chunk)
  {
    hide HexDigits, Power16, TakeAll, Announces, ChunkSize;
    var digits := HexDigits(|chunk|);
    var c := WireChunk(digits + [CR], chunk);
    SizeLineRead(|chunk|);
    HexLength(|chunk|, MAX_HEX_DIGITS);
    SizeLineIff(c.line, |chunk|);
    TakeChunk(out, c);
    AppendAssoc(digits, [CR], [LF]);
    assert [CR] + [LF] == [CR, LF];
  }

  lemma EndTaken(out: seq<byte>)
    ensures TakeAll(Decoder(Size, [], 0, out), END) == Decoder(Finished, [], 0, out)
  {
    hide Announces, ChunkSize, TakeAll, Power16;
    SizeLineRead(0);
    Power16Positive(MAX_HEX_DIGITS);
    assert HexDigits(0) + [CR] == [48, CR];
    SizeLineIff([48, CR], 0);
    TakeEnd(out, [48, CR], [], [CR]);
    assert [48, CR] + [LF] + [] + ([CR] + [LF]) == END;
  }

  lemma {:induction false} WriteAllTaken(out: seq<byte>, chunks: seq<seq<byte>>, rest: seq<byte>)
    requires Writable(chunks)
    ensures TakeAll(Decoder(Size, [], 0, out), WriteAll(chunks) + END + rest) ==
            Decoder(Finished, [], 0, out + Concat(UpToEmpty(chunks)))
    decreases |chunks|
  {
    hide Take, WriteChunk, END;
    var d := Decoder(Size, [], 0, out);
    if chunks == [] {
      EndTaken(out);
      TakeAllAppend(d, END, rest);
      TakeAllDead(Decoder(Finished, [], 0, out), rest);
      assert WriteAll(chunks) + END + rest == END + rest;
      assert out + [] == out;
    } else {
      var tail := WriteAll(chunks[1..]) + END + rest;
      assert WriteAll(chunks) + END + rest == WriteChunk(chunks[0]) + tail;
      TakeAllAppend(d, WriteChunk(chunks[0]), tail);
      if chunks[0] == [] {
        EmptyChunkIsEnd();
        EndTaken(out);
        TakeAllDead(Decoder(Finished, [], 0, out), tail);
        assert out + [] == out;
      } else {
        WriteChunkTaken(out, chunks[0]);
        WriteAllTaken(out + chunks[0], chunks[1..], rest);
        assert ([chunks[0]] + UpToEmpty(chunks[1..]))[1..] == UpToEmpty(chunks[1..]);
        assert out + chunks[0] + Concat(UpToEmpty(chunks[1..])) == out + Concat(UpToEmpty(chunks));
      }
    }
  }

  /** Writing an empty chunk prints the terminator. */
  lemma EmptyChunkIsEnd()
    ensures WriteChunk([]) == END
  {
  }

  /** The decoder's reader: each piece is fed in turn. */
  function FeedPieces(d: Decoder, pieces: seq<seq<byte>>): Decoder
    decreases |pieces|
  {
    if pieces == [] then d else FeedPieces(TakeAll(d, pieces[0]), pieces[1..])
  }

  /** Cutting the input differently decodes the same. */
  lemma {:induction false} PiecesDecode(d: Decoder, pieces: seq<seq<byte>>)
    ensures FeedPieces(d, pieces) == TakeAll(d, Concat(pieces))
    decreases |pieces|
  {
    if pieces != [] {
      PiecesDecode(TakeAll(d, pieces[0]), pieces[1..]);
      TakeAllAppend(d, pieces[0], Concat(pieces[1..]));
    }
  }

  /**
   Round trip under every cut: the decoder yields the chunks up to the first empty one and is done. The
   whole list comes back exactly when every byte written lies before the first empty chunk.
   */
  lemma RoundTrip(chunks: seq<seq<byte>>, rest: seq<byte>, pieces: seq<seq<byte>>)
    requires Writable(chunks)
    requires Concat(pieces) == WriteAll(chunks) + END + rest
    ensures FeedPieces(START, pieces) == Decoder(Finished, [], 0, Concat(UpToEmpty(chunks)))
    ensures Concat(UpToEmpty(chunks)) == Concat(chunks) <==> Concat(chunks[|UpToEmpty(chunks)|..]) == []
  {
    hide WriteAll, UpToEmpty, TakeAll, Concat, FeedPieces, END;
    PiecesDecode(START, pieces);
    WriteAllTaken([], chunks, rest);
    assert [] + Concat(UpToEmpty(chunks)) == Concat(UpToEmpty(chunks));
    NothingBehindEmpty(chunks);
  }

  lemma NothingBehindEmpty(chunks: seq<seq<byte>>)
    ensures Concat(UpToEmpty(chunks)) == Concat(chunks) <==> Concat(chunks[|UpToEmpty(chunks)|..]) == []
  {
    hide Concat;
    var front := UpToEmpty(chunks);
    var n := |front|;
    assert front == chunks[..n];
    ConcatAppend(front, chunks[n..]);
    assert chunks == front + chunks[n..];
    assert |Concat(chunks)| == |Concat(front)| + |Concat(chunks[n..])|;
  }

  lemma {:induction false} UpToEmptyIsAll(chunks: seq<seq<byte>>)
    requires forall i :: 0 <= i < |chunks| ==> chunks[i] != []
    ensures UpToEmpty(chunks) == chunks
  {
    if chunks != [] {
      UpToEmptyIsAll(chunks[1..]);
    }
  }

  /** With no empty chunk, every byte comes back. */
  lemma RoundTripNonEmpty(chunks: seq<seq<byte>>, pieces: seq<seq<byte>>)
    requires Writable(chunks) && Concat(pieces) == WriteAll(chunks) + END
    requires forall i :: 0 <= i < |chunks| ==> chunks[i] != []
    ensures FeedPieces(START, pieces) == Decoder(Finished, [], 0, Concat(chunks))
  {
    assert WriteAll(chunks) + END + [] == WriteAll(chunks) + END;
    RoundTrip(chunks, [], pieces);
    UpToEmptyIsAll(chunks);
  }

  lemma Power16Sixteen()
    ensures Power16(16) == 0x1_0000_0000_0000_0000
  {
    assert Power16(4) == 0x1_0000;
    assert Power16(8) == 0x1_0000_0000;
    assert Power16(12) == 0x1_0000_0000_0000;
  }

  /** A chunk of 16^15 bytes or more, up to the width of a size, has a size line the decoder refuses. */
  lemma OversizeChunkFails(out: seq<byte>, chunk: seq<byte>)
    requires Power16(15) <= |chunk| < 0x1_0000_0000_0000_0000
    ensures TakeAll(Decoder(Size, [], 0, out), WriteChunk(chunk)).phase.Failed?
  {
    hide HexDigits, Power16;
    var d := Decoder(Size, [], 0, out);
    var line := HexDigits(|chunk|) + [CR];
    SizeLineRead(|chunk|);
    HexLength(|chunk|, 16);
    Power16Sixteen();
    TakeWholeLine(d, line);
    TakeAllAppend(d, line + [LF], chunk + [CR, LF]);
    assert WriteChunk(chunk) == line + [LF] + (chunk + [CR, LF]);
    TakeAllDead(Take(d.(line := line), LF), chunk + [CR, LF]);
  }
}
