/** Powers of two, the bits of a byte, and bit strings in the two orders that DEFLATE uses. */
module Bits {

  type byte = x: int | 0 <= x < 256

  /** A sequence of bits read from a byte stream, least significant bit of each byte first. */
  type Bitstring = seq<bool>

  // ---------------------------------------------------------------- powers of two

  function Pow2(n: nat): (p: nat)
    ensures p > 0
  {
    if n == 0 then 1 else 2 * Pow2(n - 1)
  }

  lemma {:induction false} Pow2Add(a: nat, b: nat)
    ensures Pow2(a + b) == Pow2(a) * Pow2(b)
  {
    if a > 0 {
      Pow2Add(a - 1, b);
      assert Pow2(a + b) == 2 * Pow2((a - 1) + b);
      MulAssoc(2, Pow2(a - 1), Pow2(b));
    }
  }

  lemma {:induction false} Pow2Mono(a: nat, b: nat)
    requires a <= b
    ensures Pow2(a) <= Pow2(b)
  {
    if a < b { Pow2Mono(a, b - 1); }
  }

  lemma Pow2Word()
    ensures Pow2(32) == 0x1_0000_0000
  {
    hide Pow2;
    Pow2Four();
    Pow2Add(4, 4);
    Pow2Add(8, 8);
    Pow2Add(16, 16);
  }

  lemma Pow2Four()
    ensures Pow2(4) == 16
  {
  }

  lemma MulMono(a: int, b: int, d: nat)
    requires a <= b
    ensures a * d <= b * d
  {
    assert b * d - a * d == (b - a) * d;
  }

  lemma MulSum(a: int, b: int, c: int)
    ensures (a + b) * c == a * c + b * c
  {
  }

  lemma Digit(a: nat, b: nat, c: nat, d: nat, n: nat)
    requires b < n && d < n && a * n + b == c * n + d
    ensures a == c && b == d
  {
    if a < c {
      MulMono(a + 1, c, n);
      MulSum(a, 1, n);
    } else if c < a {
      MulMono(c + 1, a, n);
      MulSum(c, 1, n);
    }
  }

  lemma MulAssoc(a: int, b: int, c: int)
    ensures (a * b) * c == a * (b * c)
  {
  }

  lemma Pow2Twice(q: int, k: nat)
    ensures q * Pow2(k + 1) == 2 * (q * Pow2(k)) == (2 * q) * Pow2(k)
  {
    MulAssoc(q, 2, Pow2(k));
    MulAssoc(2, q, Pow2(k));
  }

  /** v >> k */
  function Shr(v: nat, k: nat): nat {
    if k == 0 then v else Shr(v / 2, k - 1)
  }

  /** Dropping one more low bit halves the shifted value. */
  lemma {:induction false} ShrStep(v: nat, k: nat)
    ensures Shr(v, k + 1) == Shr(v, k) / 2
  {
    if k > 0 { ShrStep(v / 2, k - 1); }
  }

  /** v without its k low bits, up to seven of them. */
  function Quotient(v: nat, k: nat): nat {
    match k
    case 0 => v
    case 1 => v / 2
    case 2 => v / 4
    case 3 => v / 8
    case 4 => v / 16
    case 5 => v / 32
    case 6 => v / 64
    case _ => v / 128
  }

  lemma QuotientIs(v: nat, k: nat)
    requires k < 8
    ensures Quotient(v, k) == Shr(v, k)
  {
    hide Shr;
    if k == 0 {
      Unshifted(v);
    } else {
      QuotientIs(v, k - 1);
      ShrStep(v, k - 1);
    }
  }

  lemma Unshifted(v: nat)
    ensures Shr(v, 0) == v
  {
  }

  /** Shifting is division by a power of two. */
  lemma {:induction false} ShrBounds(v: nat, k: nat)
    ensures Shr(v, k) * Pow2(k) <= v < (Shr(v, k) + 1) * Pow2(k)
  {
    if k > 0 {
      ShrBounds(v / 2, k - 1);
      Pow2Twice(Shr(v, k), k - 1);
      Pow2Twice(Shr(v, k) + 1, k - 1);
    }
  }

  lemma {:induction false} ShrZero(k: nat)
    ensures Shr(0, k) == 0
  {
    if k > 0 { ShrZero(k - 1); }
  }

  lemma {:induction false} ShrFits(v: nat, k: nat, n: nat)
    requires v < Pow2(n) && k <= n
    ensures Shr(v, k) < Pow2(n - k)
  {
    if k > 0 { ShrFits(v / 2, k - 1, n - 1); }
  }

  // ---------------------------------------------------------------- bitwise and, exclusive or

  function BitAnd(a: nat, b: nat): (r: nat)
    ensures r <= a && r <= b
  {
    if a == 0 || b == 0 then 0
    else (if a % 2 == 1 && b % 2 == 1 then 1 else 0) + 2 * BitAnd(a / 2, b / 2)
  }

  function BitXor(a: nat, b: nat): nat
    decreases a + b
  {
    if a == 0 && b == 0 then 0 else (a % 2 + b % 2) % 2 + 2 * BitXor(a / 2, b / 2)
  }

  function BitOr(a: nat, b: nat): nat
    decreases a + b
  {
    if a == 0 && b == 0 then 0 else (if a % 2 == 1 || b % 2 == 1 then 1 else 0) + 2 * BitOr(a / 2, b / 2)
  }

  lemma {:induction false} OrFits(a: nat, b: nat, n: nat)
    requires a < Pow2(n) && b < Pow2(n)
    ensures BitOr(a, b) < Pow2(n)
  {
    if n > 0 && (a != 0 || b != 0) { OrFits(a / 2, b / 2, n - 1); }
  }

  lemma {:induction false} OrAt(a: nat, b: nat, k: nat)
    ensures Shr(BitOr(a, b), k) % 2 == 1 <==> Shr(a, k) % 2 == 1 || Shr(b, k) % 2 == 1
  {
    if a == 0 && b == 0 {
      ShrZero(k);
    } else if k > 0 {
      assert BitOr(a, b) / 2 == BitOr(a / 2, b / 2);
      OrAt(a / 2, b / 2, k - 1);
    }
  }

  /** Bit k of v << s */
  lemma {:induction false} ShlAt(v: nat, s: nat, k: nat)
    ensures Shr(v * Pow2(s), k) % 2 == 1 <==> k >= s && Shr(v, k - s) % 2 == 1
  {
    if s > 0 {
      Pow2Twice(v, s - 1);
      if k > 0 {
        assert (v * Pow2(s)) / 2 == v * Pow2(s - 1);
        ShlAt(v, s - 1, k - 1);
      }
    }
  }

  lemma {:induction false} XorFits(a: nat, b: nat, n: nat)
    requires a < Pow2(n) && b < Pow2(n)
    ensures BitXor(a, b) < Pow2(n)
  {
    if n > 0 && (a != 0 || b != 0) { XorFits(a / 2, b / 2, n - 1); }
  }

  // ---------------------------------------------------------------- numbers as bit strings

  /** The n low bits of v, least significant first. */
  function Lsb(v: nat, n: nat): (s: Bitstring)
    ensures |s| == n
  {
    if n == 0 then [] else [v % 2 == 1] + Lsb(v / 2, n - 1)
  }

  /** The n low bits of v, most significant first. */
  function Msb(v: nat, n: nat): (s: Bitstring)
    ensures |s| == n
  {
    if n == 0 then [] else Msb(v / 2, n - 1) + [v % 2 == 1]
  }

  lemma {:induction false} LsbAt(v: nat, n: nat, i: nat)
    requires i < n
    ensures Lsb(v, n)[i] == (Shr(v, i) % 2 == 1)
  {
    if i > 0 {
      LsbAt(v / 2, n - 1, i - 1);
    }
  }

  lemma {:induction false} MsbAt(v: nat, n: nat, i: nat)
    requires i < n
    ensures Msb(v, n)[i] == (Shr(v, n - 1 - i) % 2 == 1)
  {
    if i < n - 1 {
      MsbAt(v / 2, n - 1, i);
    }
  }

  lemma LsbExtend(v: nat, i: nat)
    ensures Lsb(v, i + 1) == Lsb(v, i) + [Shr(v, i) % 2 == 1]
  {
    var a, b := Lsb(v, i + 1), Lsb(v, i) + [Shr(v, i) % 2 == 1];
    forall k | 0 <= k < i + 1 ensures a[k] == b[k] {
      LsbAt(v, i + 1, k);
      if k < i { LsbAt(v, i, k); }
    }
  }

  lemma {:induction false} LsbSplit(v: nat, a: nat, b: nat)
    ensures Lsb(v, a + b) == Lsb(v, a) + Lsb(Shr(v, a), b)
  {
    if a > 0 { LsbSplit(v / 2, a - 1, b); }
  }

  lemma {:induction false} LsbLow(v: nat, n: nat, z: nat)
    ensures Lsb(v + z * Pow2(n), n) == Lsb(v, n)
  {
    if n > 0 {
      Pow2Twice(z, n - 1);
      assert (v + z * Pow2(n)) / 2 == v / 2 + z * Pow2(n - 1) && (v + z * Pow2(n)) % 2 == v % 2;
      LsbLow(v / 2, n - 1, z);
    }
  }

  /** The 16 bits of a number are those of its two bytes. */
  lemma TwoBytes(v: nat)
    requires v < 65536
    ensures Lsb(v, 16) == ByteBits(v % 256) + ByteBits(v / 256)
  {
    hide Lsb, Shr;
    assert Pow2(8) == 256;
    LsbSplit(v, 8, 8);
    ShrBounds(v, 8);
    LsbLow(v % 256, 8, v / 256);
  }

  /** Only the n low bits of the number matter. */
  lemma {:induction false} MsbLow(v: nat, n: nat, z: nat)
    ensures Msb(v + z * Pow2(n), n) == Msb(v, n)
  {
    if n > 0 {
      Pow2Twice(z, n - 1);
      assert (v + z * Pow2(n)) / 2 == v / 2 + z * Pow2(n - 1);
      MsbLow(v / 2, n - 1, z);
    }
  }

  /** Reading the bits back gives the number, whatever follows it. */
  function Value(s: Bitstring): (v: nat)
    ensures v < Pow2(|s|)
  {
    if s == [] then 0 else (if s[0] then 1 else 0) + 2 * Value(s[1..])
  }

  lemma {:induction false} ValueLsb(v: nat, n: nat)
    requires v < Pow2(n)
    ensures Value(Lsb(v, n)) == v
  {
    if n > 0 {
      assert Lsb(v, n)[1..] == Lsb(v / 2, n - 1);
      ValueLsb(v / 2, n - 1);
    }
  }

  lemma {:induction false} ValueAppend(s: Bitstring, b: bool)
    ensures Value(s + [b]) == Value(s) + (if b then Pow2(|s|) else 0)
  {
    if s == [] {
      assert ([] + [b])[1..] == [];
    } else {
      assert (s + [b])[1..] == s[1..] + [b];
      ValueAppend(s[1..], b);
    }
  }

  // ---------------------------------------------------------------- bytes as bit strings

  /** Bit k of a byte: (b >> k) & 1. */
  function ByteBit(b: byte, k: nat): bool {
    Shr(b, k) % 2 == 1
  }

  /** b | (v << k), for a single bit v. */
  function OrBit(b: byte, k: nat, v: bool): (r: byte)
    requires k < 8
    ensures forall i | 0 <= i < 8 :: ByteBit(r, i) == (ByteBit(b, i) || (v && i == k))
  {
    if v && !ByteBit(b, k) then
      ByteBitsAt(b);
      AddBit(b, 8, k);
      assert Pow2(8) == 256;
      AddBitFits(b, 8, k);
      ByteBitsAt(b + Pow2(k));
      b + Pow2(k)
    else b
  }

  lemma OrBitAt(b: byte, k: nat, v: bool, i: nat)
    requires k < 8 && i < 8
    ensures ByteBit(OrBit(b, k, v), i) == (ByteBit(b, i) || (v && i == k))
  {
  }

  lemma {:induction false} AddBit(v: nat, n: nat, k: nat)
    requires k < n && !Lsb(v, n)[k]
    ensures Lsb(v + Pow2(k), n) == Lsb(v, n)[k := true]
  {
    var t := Lsb(v / 2, n - 1);
    if k == 0 {
      assert (v + 1) / 2 == v / 2 && (v + 1) % 2 == 1;
      assert ([false] + t)[0 := true] == [true] + t;
    } else {
      assert Lsb(v, n)[k] == t[k - 1];
      AddBit(v / 2, n - 1, k - 1);
      assert (v + Pow2(k)) / 2 == v / 2 + Pow2(k - 1) && (v + Pow2(k)) % 2 == v % 2;
      assert ([v % 2 == 1] + t)[k := true] == [v % 2 == 1] + t[k - 1 := true];
    }
  }

  lemma {:induction false} AddBitFits(v: nat, n: nat, k: nat)
    requires k < n && !Lsb(v, n)[k] && v < Pow2(n)
    ensures v + Pow2(k) < Pow2(n)
  {
    if k > 0 {
      assert Lsb(v, n)[k] == Lsb(v / 2, n - 1)[k - 1];
      AddBitFits(v / 2, n - 1, k - 1);
    }
  }

  function Bit(data: seq<byte>, i: nat): bool
    requires i < 8 * |data|
  {
    ByteBit(data[i / 8], i % 8)
  }

  /** All bits of a byte buffer in stream order. */
  function BitsOf(data: seq<byte>): (s: Bitstring)
    ensures |s| == 8 * |data|
    ensures forall i | 0 <= i < 8 * |data| :: s[i] == Bit(data, i)
  {
    seq(8 * |data|, i requires 0 <= i < 8 * |data| => Bit(data, i))
  }

  function ByteBits(b: byte): (s: Bitstring)
    ensures |s| == 8
  {
    Lsb(b, 8)
  }

  lemma ByteBitsAt(b: byte)
    ensures forall i | 0 <= i < 8 :: ByteBits(b)[i] == ByteBit(b, i)
  {
    forall i | 0 <= i < 8 ensures ByteBits(b)[i] == ByteBit(b, i) { LsbAt(b, 8, i); }
  }

  lemma ByteBitsInjective(a: byte, b: byte)
    requires forall i | 0 <= i < 8 :: ByteBit(a, i) == ByteBit(b, i)
    ensures a == b
  {
    ByteBitsAt(a);
    ByteBitsAt(b);
    assert ByteBits(a) == ByteBits(b);
    assert Pow2(8) == 256;
    ValueLsb(a, 8);
    ValueLsb(b, 8);
  }

  lemma BitsOfAppend(data: seq<byte>, b: byte)
    ensures BitsOf(data + [b]) == BitsOf(data) + ByteBits(b)
  {
    ByteBitsAt(b);
    var l, r := BitsOf(data + [b]), BitsOf(data) + ByteBits(b);
    forall i | 0 <= i < |l| ensures l[i] == r[i] {
      if i >= 8 * |data| {
        assert i / 8 == |data| && i % 8 == i - 8 * |data|;
      }
    }
  }

  lemma {:induction false} BitsOfConcat(a: seq<byte>, b: seq<byte>)
    ensures BitsOf(a + b) == BitsOf(a) + BitsOf(b)
  {
    var l, r := BitsOf(a + b), BitsOf(a) + BitsOf(b);
    forall i | 0 <= i < |l| ensures l[i] == r[i] {
      if i >= 8 * |a| {
        assert (i - 8 * |a|) / 8 == i / 8 - |a| && (i - 8 * |a|) % 8 == i % 8;
      }
    }
  }

  // ---------------------------------------------------------------- occurrences

  /** The bit string s stands at position p of t. */
  predicate At(t: Bitstring, p: nat, s: Bitstring) {
    p + |s| <= |t| && t[p..p + |s|] == s
  }

  lemma AtFits(t: Bitstring, p: nat, s: Bitstring)
    requires At(t, p, s)
    ensures p + |s| <= |t|
  {
  }

  lemma AtConcat(t: Bitstring, p: nat, a: Bitstring, b: Bitstring)
    ensures At(t, p, a + b) <==> At(t, p, a) && At(t, p + |a|, b)
  {
    if At(t, p, a + b) {
      assert t[p..p + |a|] == t[p..p + |a + b|][..|a|] == a;
      assert t[p + |a|..p + |a| + |b|] == t[p..p + |a + b|][|a|..] == b;
    }
    if At(t, p, a) && At(t, p + |a|, b) {
      assert t[p..p + |a + b|] == t[p..p + |a|] + t[p + |a|..p + |a| + |b|];
    }
  }

  // ---------------------------------------------------------------- whole bytes in a bit stream

  /** The bits of consecutive bytes. */
  lemma BitsOfSlice(data: seq<byte>, p: nat, n: nat)
    requires p + n <= |data|
    ensures BitsOf(data[p..p + n]) == BitsOf(data)[8 * p..8 * (p + n)]
  {
    var l, r := BitsOf(data[p..p + n]), BitsOf(data)[8 * p..8 * (p + n)];
    forall i | 0 <= i < |l| ensures l[i] == r[i] {
      assert (i + 8 * p) / 8 == i / 8 + p && (i + 8 * p) % 8 == i % 8;
    }
  }

  /** Different byte strings of one length have different bits. */
  lemma BitsOfInjective(a: seq<byte>, b: seq<byte>)
    requires BitsOf(a) == BitsOf(b)
    ensures a == b
  {
    forall i | 0 <= i < |a| ensures a[i] == b[i] {
      forall k | 0 <= k < 8 ensures ByteBit(a[i], k) == ByteBit(b[i], k) {
        assert BitsOf(a)[8 * i + k] == BitsOf(b)[8 * i + k];
        assert (8 * i + k) / 8 == i && (8 * i + k) % 8 == k;
      }
      ByteBitsInjective(a[i], b[i]);
    }
  }

  lemma BytesAt(data: seq<byte>, p: nat, x: seq<byte>)
    requires At(BitsOf(data), 8 * p, BitsOf(x))
    ensures p + |x| <= |data| && data[p..p + |x|] == x
  {
    BitsOfSlice(data, p, |x|);
    BitsOfInjective(data[p..p + |x|], x);
  }

  /** Two bytes as one number, low byte first. */
  lemma WordAt(data: seq<byte>, p: nat, v: nat)
    requires At(BitsOf(data), 8 * p, Lsb(v, 16)) && v < 65536
    ensures p + 2 <= |data| && v == data[p] as nat + 256 * data[p + 1] as nat
  {
    hide BitsOf, Lsb, At, ByteBits;
    var a: byte, b: byte := v % 256, v / 256;
    TwoBytes(v);
    BitsOfAppend([], a);
    BitsOfAppend([a], b);
    assert BitsOf([]) == [] && [] + [a] == [a] && [] + ByteBits(a) == ByteBits(a);
    BytesAt(data, p, [a] + [b]);
    assert data[p..p + 2][0] == a && data[p..p + 2][1] == b;
  }

  // ---------------------------------------------------------------- 32-bit words

  type uint32 = x: nat | x < 0x1_0000_0000

  function Wrap(x: int): (r: uint32) {
    x % 0x1_0000_0000
  }

  function Xor32(a: uint32, b: uint32): (r: uint32) {
    Pow2Word();
    XorFits(a, b, 32);
    BitXor(a, b)
  }

  function Shift32(a: uint32, k: nat): (r: uint32)
    requires k <= 32
  {
    Pow2Word();
    ShrFits(a, k, 32);
    Pow2Mono(32 - k, 32);
    Shr(a, k)
  }

  lemma WrapSmall(a: uint32)
    ensures Wrap(a) == a
  {
  }

  lemma WrapSum(a: int, b: int)
    ensures Wrap(Wrap(a) + b) == Wrap(a + b)
  {
    var q := a / 0x1_0000_0000;
    assert a + b == Wrap(a) + b + q * 0x1_0000_0000;
    WrapMultiple(Wrap(a) + b, q);
  }

  lemma WrapMultiple(a: int, q: int)
    ensures Wrap(a + q * 0x1_0000_0000) == Wrap(a)
  {
    assert (a + q * 0x1_0000_0000) / 0x1_0000_0000 == a / 0x1_0000_0000 + q;
  }
}
