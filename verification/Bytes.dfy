/**
 Bytes and the byte arithmetic the wire formats use. A byte is an integer in 0..255, so the
 source's shifts and masks appear as division and remainder by powers of two.
 */
module Bytes {

  type byte = b: int | 0 <= b < 256

  /** Bitwise exclusive or of the low `width` bits. */
  function XorBits(a: nat, b: nat, width: nat): (r: nat)
    decreases width
  {
    if width == 0 then 0 else (a % 2 + b % 2) % 2 + 2 * XorBits(a / 2, b / 2, width - 1)
  }

  /** 2 to the power `width`. */
  function Power2(width: nat): (r: nat)
    ensures r > 0
  {
    if width == 0 then 1 else 2 * Power2(width - 1)
  }

  lemma {:induction false} XorBitsBounded(a: nat, b: nat, width: nat)
    ensures XorBits(a, b, width) < Power2(width)
  {
    if width > 0 {
      XorBitsBounded(a / 2, b / 2, width - 1);
    }
  }

  lemma LowBit(bit: nat, high: nat)
    requires bit < 2
    ensures (bit + 2 * high) % 2 == bit && (bit + 2 * high) / 2 == high
  {
  }

  /** Exclusive or with the same value twice is the identity. */
  lemma {:induction false} XorBitsInvolutive(a: nat, b: nat, width: nat)
    requires a < Power2(width)
    ensures XorBits(XorBits(a, b, width), b, width) == a
  {
    if width > 0 {
      var bit, high := (a % 2 + b % 2) % 2, XorBits(a / 2, b / 2, width - 1);
      LowBit(bit, high);
      assert XorBits(a, b, width) == bit + 2 * high;
      XorBitsInvolutive(a / 2, b / 2, width - 1);
      assert XorBits(high, b / 2, width - 1) == a / 2;
      assert (bit + b % 2) % 2 == a % 2;
    }
  }

  lemma Power2Eight()
    ensures Power2(8) == 256
  {
    assert Power2(4) == 16;
    assert Power2(6) == 64;
  }

  function Xor(a: byte, b: byte): (r: byte)
    ensures r == XorBits(a, b, 8)
  {
    Power2Eight();
    XorBitsBounded(a, b, 8);
    XorBits(a, b, 8)
  }

  lemma XorInvolutive(a: byte, b: byte)
    ensures Xor(Xor(a, b), b) == a
  {
    Power2Eight();
    XorBitsInvolutive(a, b, 8);
  }

  // ---------- Bits ----------

  /** Bit k of a number, the least significant being bit 0. */
  predicate Bit(x: nat, k: nat) {
    x / Power2(k) % 2 == 1
  }

  lemma Power2Values()
    ensures Power2(0) == 1 && Power2(1) == 2 && Power2(2) == 4 && Power2(3) == 8
    ensures Power2(4) == 16 && Power2(5) == 32 && Power2(6) == 64 && Power2(7) == 128
  {
    assert Power2(3) == 8;
  }

  /** Bit k of a number is bit k - 1 of its half. */
  lemma HalfBit(x: nat, k: nat)
    requires 0 < k < 8
    ensures Bit(x, k) == Bit(x / 2, k - 1)
  {
    Power2Values();
    hide Power2;
    match k
    case 1 => assert x / 2 == x / 2 / 1;
    case 2 => assert x / 4 == x / 2 / 2;
    case 3 => assert x / 8 == x / 2 / 4;
    case 4 => assert x / 16 == x / 2 / 8;
    case 5 => assert x / 32 == x / 2 / 16;
    case 6 => assert x / 64 == x / 2 / 32;
    case _ => assert x / 128 == x / 2 / 64;
  }

  /** Exclusive or, bit by bit. */
  lemma {:induction false} XorBitsBit(a: nat, b: nat, width: nat, k: nat)
    requires k < width <= 8
    ensures Bit(XorBits(a, b, width), k) <==> Bit(a, k) != Bit(b, k)
  {
    var bit, high := (a % 2 + b % 2) % 2, XorBits(a / 2, b / 2, width - 1);
    LowBit(bit, high);
    assert XorBits(a, b, width) == bit + 2 * high;
    if k == 0 {
      assert Power2(0) == 1;
    } else {
      hide Bit, XorBits;
      XorBitsBit(a / 2, b / 2, width - 1, k - 1);
      HalfBit(bit + 2 * high, k);
      HalfBit(a, k);
      HalfBit(b, k);
    }
  }

  /** Each bit of the exclusive or of two bytes is set exactly when it is set in one of them. */
  lemma XorBit(a: byte, b: byte, k: nat)
    requires k < 8
    ensures Bit(Xor(a, b), k) <==> Bit(a, k) != Bit(b, k)
  {
    XorBitsBit(a, b, 8, k);
  }

  // ---------- Big-endian numbers ----------

  /** The number a big-endian byte string denotes. */
  function BigEndian(s: seq<byte>): (n: nat)
  {
    if s == [] then 0 else BigEndian(s[..|s| - 1]) * 256 + s[|s| - 1]
  }

  /** The low `count` bytes of `n`, most significant first. */
  function ToBigEndian(n: nat, count: nat): (s: seq<byte>)
    ensures |s| == count
    decreases count
  {
    if count == 0 then [] else ToBigEndian(n / 256, count - 1) + [n % 256]
  }

  /** `n` shifted right by `places` bytes. */
  function ShiftRight(n: nat, places: nat): (r: nat)
  {
    if places == 0 then n else ShiftRight(n, places - 1) / 256
  }

  /** 256 to the power `count`. */
  function Power256(count: nat): (r: nat)
  {
    if count == 0 then 1 else 256 * Power256(count - 1)
  }

  lemma {:induction false} BigEndianRoundTrip(n: nat, count: nat)
    requires n < Power256(count)
    ensures BigEndian(ToBigEndian(n, count)) == n
    decreases count
  {
    if count > 0 {
      BigEndianRoundTrip(n / 256, count - 1);
      var s := ToBigEndian(n, count);
      assert s[..count - 1] == ToBigEndian(n / 256, count - 1);
    }
  }

  lemma BigEndianTwo(s: seq<byte>)
    requires |s| == 2
    ensures BigEndian(s) == s[0] as nat * 256 + s[1]
  {
    assert s[..1][..0] == [];
    assert BigEndian(s[..1]) == s[0];
  }

  lemma BigEndianFour(s: seq<byte>)
    requires |s| == 4
    ensures BigEndian(s) == s[0] as nat * 0x100_0000 + s[1] as nat * 0x1_0000 + s[2] as nat * 0x100 + s[3]
  {
    BigEndianTwo(s[..2]);
    assert s[..3][..2] == s[..2];
    assert BigEndian(s[..3]) == BigEndian(s[..2]) * 256 + s[2];
  }

  lemma {:induction false} BigEndianSplit(a: seq<byte>, b: seq<byte>)
    ensures BigEndian(a + b) == BigEndian(a) * Power256(|b|) + BigEndian(b)
    decreases |b|
  {
    if b == [] {
      assert a + b == a;
    } else {
      var n := |b| - 1;
      BigEndianSplit(a, b[..n]);
      assert (a + b)[..|a| + n] == a + b[..n];
      assert BigEndian(a) * (256 * Power256(n)) == BigEndian(a) * Power256(n) * 256;
    }
  }

  /** Eight bytes, the most significant first. */
  lemma BigEndianEight(s: seq<byte>)
    requires |s| == 8
    ensures BigEndian(s) ==
            (s[0] as nat * 0x100_0000 + s[1] as nat * 0x1_0000 + s[2] as nat * 0x100 + s[3]) * 0x1_0000_0000 +
            (s[4] as nat * 0x100_0000 + s[5] as nat * 0x1_0000 + s[6] as nat * 0x100 + s[7])
  {
    hide BigEndian, Power256;
    assert s == s[..4] + s[4..];
    BigEndianSplit(s[..4], s[4..]);
    BigEndianFour(s[..4]);
    BigEndianFour(s[4..]);
    Power256Values();
  }

  lemma Power256Values()
    ensures Power256(2) == 0x1_0000
    ensures Power256(4) == 0x1_0000_0000
    ensures Power256(8) == 0x1_0000_0000_0000_0000
  {
    assert Power256(2) == 0x1_0000;
    assert Power256(4) == 0x1_0000_0000;
    assert Power256(6) == 0x1_0000_0000_0000;
  }

  lemma {:induction false} BigEndianBounded(s: seq<byte>)
    ensures BigEndian(s) < Power256(|s|)
  {
    if s != [] {
      BigEndianBounded(s[..|s| - 1]);
    }
  }

  /** The concatenation of a list of byte strings. */
  function Concat(pieces: seq<seq<byte>>): (s: seq<byte>)
  {
    if pieces == [] then [] else pieces[0] + Concat(pieces[1..])
  }

  lemma AppendAssoc(a: seq<byte>, b: seq<byte>, c: seq<byte>)
    ensures (a + b) + c == a + (b + c)
  {
  }

  lemma {:induction false} ConcatAppend(a: seq<seq<byte>>, b: seq<seq<byte>>)
    ensures Concat(a + b) == Concat(a) + Concat(b)
  {
    if a == [] {
      assert a + b == b;
    } else {
      var tail := a[1..];
      ConcatAppend(tail, b);
      assert (a + b)[0] == a[0] && (a + b)[1..] == tail + b;
      AppendAssoc(a[0], Concat(tail), Concat(b));
    }
  }
}
