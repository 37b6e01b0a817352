/**
 The UTF-8 validator of the WebSocket engine, against the encoder of section 3 of RFC 3629.
 */
module Utf8 {
  import opened Bytes

  /** Unicode scalar values: code points that are not surrogates. */
  type Scalar = c: int | 0 <= c <= 0x10FFFF && !(0xD800 <= c <= 0xDFFF)

  /** The encoding of one scalar value, by the table of section 3 of RFC 3629. */
  function Encode(c: Scalar): (s: seq<byte>)
    ensures 1 <= |s| <= 4
  {
    if c < 0x80 then [c]
    else if c < 0x800 then [0xC0 + c / 64, 0x80 + c % 64]
    else if c < 0x1_0000 then [0xE0 + c / 4096, 0x80 + c / 64 % 64, 0x80 + c % 64]
    else [0xF0 + c / 262144, 0x80 + c / 4096 % 64, 0x80 + c / 64 % 64, 0x80 + c % 64]
  }

  function EncodeAll(cs: seq<Scalar>): (s: seq<byte>)
  {
    if cs == [] then [] else Encode(cs[0]) + EncodeAll(cs[1..])
  }

  /** Well-formed UTF-8: a concatenation of encodings of scalar values. */
  ghost predicate IsUtf8(data: seq<byte>) {
    exists cs: seq<Scalar> :: EncodeAll(cs) == data
  }

  /** Length of the sequence a lead byte announces; 0 if no sequence starts with it. */
  ghost function LeadLength(c: byte): nat {
    if c < 0x80 then 1
    else if 0xC2 <= c <= 0xDF then 2
    else if 0xE0 <= c <= 0xEF then 3
    else if 0xF0 <= c <= 0xF4 then 4
    else 0
  }

  ghost function LeadBits(c: byte): nat {
    if c < 0x80 then c else if c < 0xE0 then c % 32 else if c < 0xF0 then c % 16 else c % 8
  }

  ghost predicate Continuation(c: byte) {
    c / 64 == 2
  }

  /** Appends the low six bits of each byte of `s` to `bits`. */
  ghost function Accumulate(bits: nat, s: seq<byte>): nat {
    if s == [] then bits else Accumulate(bits, s[..|s| - 1]) * 64 + s[|s| - 1] % 64
  }

  lemma AccumulateNext(bits: nat, s: seq<byte>, c: byte)
    ensures Accumulate(bits, s + [c]) == Accumulate(bits, s) * 64 + c % 64
  {
    assert (s + [c])[..|s|] == s;
  }

  lemma AccumulateValues(bits: nat, s: seq<byte>)
    ensures |s| == 0 ==> Accumulate(bits, s) == bits
    ensures |s| == 1 ==> Accumulate(bits, s) == bits * 64 + s[0] % 64
    ensures |s| == 2 ==> Accumulate(bits, s) == (bits * 64 + s[0] % 64) * 64 + s[1] % 64
    ensures |s| == 3 ==>
              Accumulate(bits, s) == ((bits * 64 + s[0] % 64) * 64 + s[1] % 64) * 64 + s[2] % 64
  {
    if |s| == 1 {
      assert s[..0] == [];
    } else if |s| == 2 {
      assert s[..1][..0] == [];
    } else if |s| == 3 {
      assert s[..2][..1] == s[..1];
      assert s[..1][..0] == [];
    }
  }

  /** Base-64 digits of a value, as the encoder splits it. */
  lemma Digits(c: nat)
    ensures c == (c / 4096 * 64 + c / 64 % 64) * 64 + c % 64
    ensures c == ((c / 262144 * 64 + c / 4096 % 64) * 64 + c / 64 % 64) * 64 + c % 64
  {
    assert c / 4096 == c / 64 / 64;
    assert c / 262144 == c / 4096 / 64;
  }

  /** Digits below 64 are recovered by division and remainder. */
  lemma DigitsUnique(top: nat, high: nat, mid: nat, low: nat)
    requires high < 64 && mid < 64 && low < 64
    ensures var c := ((top * 64 + high) * 64 + mid) * 64 + low;
            c / 262144 == top && c / 4096 == top * 64 + high && c / 4096 % 64 == high && c / 64 % 64 == mid && c % 64 == low
  {
    var c := ((top * 64 + high) * 64 + mid) * 64 + low;
    assert c / 64 == (top * 64 + high) * 64 + mid;
    assert c / 4096 == c / 64 / 64;
    assert c / 262144 == c / 4096 / 64;
  }

  lemma Shape3(high: nat, mid: nat, low: nat)
    requires high < 16 && mid < 64 && low < 64
    ensures var s: seq<byte> := [0xE0 + high, 0x80 + mid, 0x80 + low];
            && LeadLength(s[0]) == 3 && Continuation(s[1]) && Continuation(s[2])
            && Accumulate(LeadBits(s[0]), s[1..]) == (high * 64 + mid) * 64 + low
  {
    var s: seq<byte> := [0xE0 + high, 0x80 + mid, 0x80 + low];
    AccumulateValues(LeadBits(s[0]), s[1..]);
  }

  lemma Shape4(top: nat, high: nat, mid: nat, low: nat)
    requires top <= 4 && high < 64 && mid < 64 && low < 64
    ensures var s: seq<byte> := [0xF0 + top, 0x80 + high, 0x80 + mid, 0x80 + low];
            && LeadLength(s[0]) == 4 && Continuation(s[1]) && Continuation(s[2]) && Continuation(s[3])
            && Accumulate(LeadBits(s[0]), s[1..]) == ((top * 64 + high) * 64 + mid) * 64 + low
  {
    var s: seq<byte> := [0xF0 + top, 0x80 + high, 0x80 + mid, 0x80 + low];
    AccumulateValues(LeadBits(s[0]), s[1..]);
  }

  lemma Shape2(high: nat, low: nat)
    requires 2 <= high < 32 && low < 64
    ensures var s: seq<byte> := [0xC0 + high, 0x80 + low];
            && LeadLength(s[0]) == 2 && Continuation(s[1])
            && Accumulate(LeadBits(s[0]), s[1..]) == high * 64 + low
  {
    var s: seq<byte> := [0xC0 + high, 0x80 + low];
    AccumulateValues(LeadBits(s[0]), s[1..]);
  }

  /** What the lead byte of an encoding says about the rest of it. */
  lemma EncodeShape(c: Scalar)
    ensures var s := Encode(c);
            && |s| == LeadLength(s[0])
            && (forall k :: 1 <= k < |s| ==> Continuation(s[k]))
            && c == Accumulate(LeadBits(s[0]), s[1..])
  {
    if c < 0x80 {
      assert Encode(c)[1..] == [];
    } else if c < 0x800 {
      Shape2(c / 64, c % 64);
    } else if c < 0x1_0000 {
      Digits(c);
      Shape3(c / 4096, c / 64 % 64, c % 64);
    } else {
      Digits(c);
      Shape4(c / 262144, c / 4096 % 64, c / 64 % 64, c % 64);
    }
  }

  lemma Decoded2(s: seq<byte>, c: nat)
    requires |s| == 2 == LeadLength(s[0]) && Continuation(s[1])
    requires c == LeadBits(s[0]) * 64 + s[1] % 64
    ensures 0x80 <= c < 0x800 && Encode(c) == s
  {
    assert s == [s[0], s[1]];
  }

  lemma Decoded3(s: seq<byte>, c: nat)
    requires |s| == 3 == LeadLength(s[0]) && Continuation(s[1]) && Continuation(s[2])
    requires c == (LeadBits(s[0]) * 64 + s[1] % 64) * 64 + s[2] % 64
    requires 0x800 <= c && !(0xD800 <= c <= 0xDFFF)
    ensures c < 0x1_0000 && Encode(c) == s
  {
    DigitsUnique(0, LeadBits(s[0]), s[1] % 64, s[2] % 64);
    assert s == [s[0], s[1], s[2]];
  }

  lemma Decoded4(s: seq<byte>, c: nat)
    requires |s| == 4 == LeadLength(s[0]) && Continuation(s[1]) && Continuation(s[2]) && Continuation(s[3])
    requires c == ((LeadBits(s[0]) * 64 + s[1] % 64) * 64 + s[2] % 64) * 64 + s[3] % 64
    requires 0x1_0000 <= c <= 0x10FFFF
    ensures Encode(c) == s
  {
    DigitsUnique(LeadBits(s[0]), s[1] % 64, s[2] % 64, s[3] % 64);
    assert s == [s[0], s[1], s[2], s[3]];
  }

  /** The validator's range tests leave exactly the encodings of scalar values. */
  lemma DecodedIsEncoded(s: seq<byte>, c: nat)
    requires |s| >= 1 && |s| == LeadLength(s[0])
    requires forall k :: 1 <= k < |s| ==> Continuation(s[k])
    requires c == Accumulate(LeadBits(s[0]), s[1..])
    requires !(|s| == 3 && c < 0x800) && !(|s| == 4 && c < 0x1_0000)
    requires !(c > 0x10FFFF || 0xD800 <= c <= 0xDFFF)
    ensures Encode(c) == s
  {
    AccumulateValues(LeadBits(s[0]), s[1..]);
    if |s| == 1 {
      assert s == [s[0]];
    } else if |s| == 2 {
      Decoded2(s, c);
    } else if |s| == 3 {
      Decoded3(s, c);
    } else {
      Decoded4(s, c);
    }
  }

  /** The shape of the front of any string that begins with an encoding. */
  lemma FrontShape(c: Scalar, data: seq<byte>)
    requires Encode(c) <= data
    ensures var n := LeadLength(data[0]);
            && 1 <= n <= |data| && Encode(c) == data[..n]
            && (forall k :: 1 <= k < n ==> Continuation(data[k]))
            && c == Accumulate(LeadBits(data[0]), data[1..n])
  {
    EncodeShape(c);
    var s := Encode(c);
    assert s == data[..|s|];
    assert s[0] == data[0];
    assert s[1..] == data[1..|s|];
    forall k | 1 <= k < |s|
      ensures Continuation(data[k])
    {
      assert data[k] == s[k];
    }
  }

  /** An encoding can be split off the front of a string in one way only. */
  lemma {:induction false} StripFirst(c: Scalar, rest: seq<byte>)
    ensures IsUtf8(Encode(c) + rest) <==> IsUtf8(rest)
  {
    var data := Encode(c) + rest;
    if cs: seq<Scalar> :| EncodeAll(cs) == rest {
      assert ([c] + cs)[1..] == cs;
      assert EncodeAll([c] + cs) == data;
    }
    if cs: seq<Scalar> :| EncodeAll(cs) == data {
      assert cs != [];
      FrontShape(c, data);
      FrontShape(cs[0], data);
      assert rest == data[|Encode(c)|..];
      assert EncodeAll(cs[1..]) == data[|Encode(cs[0])|..];
    }
  }

  lemma {:induction false} EncodingInFront(data: seq<byte>)
    requires data != [] && IsUtf8(data)
    ensures exists c: Scalar :: Encode(c) <= data
  {
    var cs: seq<Scalar> :| EncodeAll(cs) == data;
    assert Encode(cs[0]) <= data;
  }

  /** If the bytes in front do not have the shape their lead byte announces, nothing is encoded there. */
  lemma BadShape(data: seq<byte>)
    requires data != []
    requires var n := LeadLength(data[0]);
             n == 0 || n > |data| || exists k :: 1 <= k < n && !Continuation(data[k])
    ensures !IsUtf8(data)
  {
    if IsUtf8(data) {
      EncodingInFront(data);
      var c: Scalar :| Encode(c) <= data;
      FrontShape(c, data);
      assert false;
    }
  }

  /** Right shape, but an overlong form, a surrogate, or a value above U+10FFFF. */
  lemma BadValue(data: seq<byte>, n: nat, c: nat)
    requires data != [] && n == LeadLength(data[0]) && 1 <= n <= |data|
    requires c == Accumulate(LeadBits(data[0]), data[1..n])
    requires (n == 3 && c < 0x800) || (n == 4 && c < 0x1_0000) || c > 0x10FFFF || 0xD800 <= c <= 0xDFFF
    ensures !IsUtf8(data)
  {
    if IsUtf8(data) {
      EncodingInFront(data);
      var d: Scalar :| Encode(d) <= data;
      FrontShape(d, data);
      assert false;
    }
  }

  /** One sequence of the right shape and value is stepped over. */
  lemma GoodSequence(data: seq<byte>, n: nat, c: nat)
    requires data != [] && n == LeadLength(data[0]) && 1 <= n <= |data|
    requires forall k :: 1 <= k < n ==> Continuation(data[k])
    requires c == Accumulate(LeadBits(data[0]), data[1..n])
    requires !(n == 3 && c < 0x800) && !(n == 4 && c < 0x1_0000)
    requires !(c > 0x10FFFF || 0xD800 <= c <= 0xDFFF)
    ensures IsUtf8(data) <==> IsUtf8(data[n..])
  {
    assert data[..n][1..] == data[1..n];
    DecodedIsEncoded(data[..n], c);
    assert data == Encode(c) + data[n..];
    StripFirst(c, data[n..]);
  }

  lemma EmptyIsUtf8()
    ensures IsUtf8([])
  {
    assert EncodeAll([]) == [];
  }

  /** The validator accepts exactly the well-formed strings. */
  method IsValidUtf8(data: seq<byte>) returns (ok: bool)
    ensures ok <==> IsUtf8(data)
  {
    hide IsUtf8, Accumulate;
    var i := 0;
    assert data[0..] == data;
    while i < |data|
      invariant 0 <= i <= |data|
      invariant IsUtf8(data) <==> IsUtf8(data[i..])
    {
      var c := data[i];
      ghost var rest := data[i..];
      if c < 0x80 {
        AccumulateValues(LeadBits(c), rest[1..1]);
        GoodSequence(rest, 1, c);
        assert rest[1..] == data[i + 1..];
        i := i + 1;
        continue;
      }
      var len: nat;
      var cp: nat;
      if 0xC2 <= c <= 0xDF {
        len, cp := 2, c % 32;
      } else if 0xE0 <= c <= 0xEF {
        len, cp := 3, c % 16;
      } else if 0xF0 <= c <= 0xF4 {
        len, cp := 4, c % 8;
      } else {
        BadShape(rest);
        return false;
      }
      if i + len > |data| {
        BadShape(rest);
        return false;
      }
      AccumulateValues(LeadBits(c), rest[1..1]);
      for k := 1 to len
        invariant forall j :: 1 <= j < k ==> Continuation(rest[j])
        invariant cp == Accumulate(LeadBits(c), rest[1..k])
      {
        var cc := data[i + k];
        assert cc == rest[k];
        if cc / 64 != 2 {
          BadShape(rest);
          return false;
        }
        AccumulateNext(LeadBits(c), rest[1..k], cc);
        assert rest[1..k + 1] == rest[1..k] + [cc];
        cp := cp * 64 + cc % 64;
      }
      if (len == 3 && cp < 0x800) || (len == 4 && cp < 0x1_0000) {
        BadValue(rest, len, cp);
        return false;
      }
      if cp > 0x10FFFF || 0xD800 <= cp <= 0xDFFF {
        BadValue(rest, len, cp);
        return false;
      }
      GoodSequence(rest, len, cp);
      assert rest[len..] == data[i + len..];
      i := i + len;
    }
    assert data[i..] == [];
    EmptyIsUtf8();
    return true;
  }
}
