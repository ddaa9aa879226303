/** Values of one, two or four bits packed into the bytes of an image. */
module BitGroups {
  import opened Bits
  import opened Buffers
  import opened PngBits
  import opened ColorTree

  // ---------------------------------------------------------------- groups of bits

  /** The number that bits stand for, most significant first. */
  function Big(s: Bitstring): nat {
    if s == [] then 0 else 2 * Big(s[..|s| - 1]) + One(s[|s| - 1])
  }

  lemma {:induction false} BigMsb(v: nat, n: nat)
    requires v < Pow2(n)
    ensures Big(Msb(v, n)) == v
  {
    if n > 0 {
      var s := Msb(v, n);
      assert s[..n - 1] == Msb(v / 2, n - 1);
      BigMsb(v / 2, n - 1);
    }
  }

  /** readBitsFromReversedStream */
  method ReadBitsFromReversedStream(bitpointer: nat, bitstream: array<byte>, nbits: nat)
    returns (result: nat, next: nat)
    requires bitpointer + nbits <= 8 * bitstream.Length
    ensures result == Big(RBits(bitstream[..])[bitpointer..bitpointer + nbits]) && next == bitpointer + nbits
  {
    hide RBits, Pow2;
    result, next := 0, bitpointer;
    ghost var s := RBits(bitstream[..])[bitpointer..bitpointer + nbits];
    for k := 0 to nbits
      invariant next == bitpointer + k
      invariant result == Big(s[..k]) * Pow2(nbits - k)
    {
      var bit;
      bit, next := ReadBitFromReversedStream(next, bitstream);
      assert bit == s[k];
      NextBit(s, k, nbits);
      result := result + One(bit) * Pow2(nbits - 1 - k);
    }
    assert s[..nbits] == s;
    NoMoreBits(s);
  }

  lemma NoMoreBits(s: Bitstring)
    ensures Big(s) * Pow2(0) == Big(s)
  {
  }

  lemma NextBit(s: Bitstring, k: nat, n: nat)
    requires k < n <= |s|
    ensures Big(s[..k]) * Pow2(n - k) + One(s[k]) * Pow2(n - 1 - k) == Big(s[..k + 1]) * Pow2(n - 1 - k)
  {
    assert s[..k + 1][..k] == s[..k];
    Pow2Twice(Big(s[..k]), n - 1 - k);
    MulSum(2 * Big(s[..k]), One(s[k]), Pow2(n - 1 - k));
  }

  /** Bit j of a byte, counted from the high end. */
  predicate FromTop(b: byte, j: nat)
    requires j < 8
  {
    ByteBit(b, 7 - j)
  }

  /** A group of bits that is or-ed into a byte behind the groups already there. */
  lemma AddedByte(x: byte, v: nat, bits: nat, q: nat, y: nat)
    requires q + bits <= 8 && v < Pow2(bits) && y == BitOr(x, v * Pow2(8 - bits - q))
    requires forall j | q <= j < 8 :: !FromTop(x, j)
    ensures y < 256
    ensures forall j | 0 <= j < 8 ::
              FromTop(y, j) == if j < q then FromTop(x, j) else j < q + bits && Msb(v, bits)[j - q]
  {
    hide Shr, BitOr, Msb, Pow2;
    AddedFits(x, v, bits, 8 - bits - q);
    forall j | 0 <= j < 8
      ensures FromTop(y, j) == if j < q then FromTop(x, j) else j < q + bits && Msb(v, bits)[j - q]
    {
      assert j >= q ==> !FromTop(x, j);
      AddedBit(x, v, bits, q, j);
    }
  }

  lemma AddedFits(x: byte, v: nat, bits: nat, s: nat)
    requires bits + s <= 8 && v < Pow2(bits)
    ensures BitOr(x, v * Pow2(s)) < 256
  {
    hide BitOr;
    assert Pow2(8) == 256;
    Shifted(v, bits, s);
    Pow2Mono(bits + s, 8);
    OrFits(x, v * Pow2(s), 8);
  }

  lemma AddedBit(x: byte, v: nat, bits: nat, q: nat, j: nat)
    requires q + bits <= 8 && v < Pow2(bits) && j < 8 && (j >= q ==> Shr(x, 7 - j) % 2 != 1)
    ensures Shr(BitOr(x, v * Pow2(8 - bits - q)), 7 - j) % 2 == 1
            <==> if j < q then Shr(x, 7 - j) % 2 == 1 else j < q + bits && Msb(v, bits)[j - q]
  {
    hide Shr, BitOr, Msb, Pow2;
    var s := 8 - bits - q;
    OrAt(x, v * Pow2(s), 7 - j);
    ShlAt(v, s, 7 - j);
    if q <= j < q + bits {
      MsbAt(v, bits, j - q);
    } else if j < q {
      HighBit(v, bits, 7 - j - s);
    }
  }

  lemma Shifted(v: nat, n: nat, s: nat)
    requires v < Pow2(n)
    ensures v * Pow2(s) < Pow2(n + s)
  {
    Pow2Add(n, s);
    MulMono(v + 1, Pow2(n), Pow2(s));
    MulSum(v, 1, Pow2(s));
  }

  lemma HighBit(v: nat, n: nat, k: nat)
    requires v < Pow2(n) && n <= k
    ensures Shr(v, k) % 2 != 1
  {
    ShrFits(v, n, n);
    ShrMore(v, n, k - n);
    ShrZero(k - n);
  }

  lemma {:induction false} ShrMore(v: nat, a: nat, b: nat)
    ensures Shr(v, a + b) == Shr(Shr(v, a), b)
  {
    if a > 0 { ShrMore(v / 2, a - 1, b); }
  }

  /** Replacing a byte replaces its eight bits. */
  lemma ByteReplaced(data: seq<byte>, i: nat, y: byte, q: nat, u: Bitstring)
    requires i < |data| && q + |u| == 8
    requires forall j | 0 <= j < 8 :: FromTop(y, j) == if j < q then FromTop(data[i], j) else u[j - q]
    ensures Placed(RBits(data[i := y]), RBits(data), 8 * i + q, u)
  {
    hide ByteBit, RBits, Placed;
    ReplacedBits(data, i, y);
    OneByte(data[i], y, q, u);
    InTheMiddle(RBits(data), 8 * i, q, u);
  }

  lemma ReplacedBits(data: seq<byte>, i: nat, y: byte)
    requires i < |data|
    ensures RBits(data[i := y]) == RBits(data)[..8 * i] + RBits([y]) + RBits(data)[8 * i + 8..]
    ensures RBits([data[i]]) == RBits(data)[8 * i..8 * i + 8]
  {
    hide RBits;
    assert data[i..i + 1] == [data[i]];
    RBitsSlice(data, i, i + 1);
    assert data[i := y] == data[..i] + [y] + data[i + 1..];
    RBitsConcat(data[..i] + [y], data[i + 1..]);
    RBitsConcat(data[..i], [y]);
    RBitsSlice(data, 0, i);
    RBitsSlice(data, i + 1, |data|);
  }

  lemma OneByte(x: byte, y: byte, q: nat, u: Bitstring)
    requires q + |u| == 8
    requires forall j | 0 <= j < 8 :: FromTop(y, j) == if j < q then FromTop(x, j) else u[j - q]
    ensures RBits([y]) == RBits([x])[..q] + u
  {
    hide ByteBit;
    var a, b := RBits([y]), RBits([x])[..q] + u;
    forall j | 0 <= j < 8 ensures a[j] == b[j] {
      assert j / 8 == 0 && j % 8 == j;
      assert a[j] == FromTop(y, j) && RBits([x])[j] == FromTop(x, j);
    }
  }

  lemma InTheMiddle(s: Bitstring, a: nat, q: nat, u: Bitstring)
    requires a + 8 <= |s| && q + |u| == 8
    ensures Placed(s[..a] + (s[a..a + 8][..q] + u) + s[a + 8..], s, a + q, u)
  {
  }

  predicate Nibble(bits: nat) {
    bits == 1 || bits == 2 || bits == 4
  }

  /** How many bits follow the group in its byte. */
  function Rest(bits: nat, index: nat): (n: nat)
    requires Nibble(bits)
    ensures Pos(bits, index) % 8 + bits + n == 8
  {
    GroupPlace(bits, index);
    8 - bits - Pos(bits, index) % 8
  }

  /** The byte that holds a group, and how far its value is shifted there. */
  function GroupByte(bits: nat, index: nat): nat {
    index * bits / 8
  }

  function GroupShift(bits: nat, index: nat): nat
    requires Nibble(bits)
  {
    var m := if bits == 1 then 7 else if bits == 2 then 3 else 1;
    bits * (m - index % (m + 1))
  }

  lemma GroupPlace(bits: nat, index: nat)
    requires Nibble(bits)
    ensures Pos(bits, index) % 8 + bits <= 8 && GroupByte(bits, index) == Pos(bits, index) / 8
    ensures GroupShift(bits, index) == 8 - bits - Pos(bits, index) % 8
    ensures index % (8 / bits) == 0 <==> Pos(bits, index) % 8 == 0
  {
    hide Pos;
    PosIs(bits, index);
    if bits == 2 { Places2(index); }
    if bits == 4 { Places4(index); }
  }

  lemma Places2(index: nat)
    ensures (2 * index) % 8 == 2 * (index % 4)
  {
    assert index == 4 * (index / 4) + index % 4;
  }

  lemma Places4(index: nat)
    ensures (4 * index) % 8 == 4 * (index % 2)
  {
    assert index == 2 * (index / 2) + index % 2;
  }

  /** addColorBits. Within its byte the group must be the next one, with only zeros behind it. */
  method AddColorBits(out: array<byte>, index: nat, bits: nat, value: nat)
    requires Nibble(bits) && Pos(bits, index) + bits <= 8 * out.Length
    requires index % (8 / bits) == 0
             || forall j | Pos(bits, index) <= j < Pos(bits, index) + bits + Rest(bits, index) && j < 8 * out.Length ::
                  !RBits(out[..])[j]
    modifies out
    ensures Placed(RBits(out[..]), old(RBits(out[..])), Pos(bits, index),
                   Msb(value % Pow2(bits), bits) + Zeros(Rest(bits, index)))
  {
    hide Placed, Pos, Msb, Pow2, BitOr, RBits, GroupByte, GroupShift, Rest;
    GroupPlace(bits, index);
    ghost var was := out[..];
    var v := value % Pow2(bits);
    var i, shift := GroupByte(bits, index), GroupShift(bits, index);
    var first := index % (8 / bits) == 0;
    ColorAdded(was, i, Pos(bits, index) % 8, bits, v, first);
    if first {
      out[i] := v * Pow2(shift);
    } else {
      out[i] := BitOr(out[i], v * Pow2(shift));
    }
    assert out[..] == was[i := out[i]];
  }

  /** The byte after a group was added, at bit q of byte i. */
  lemma ColorAdded(data: seq<byte>, i: nat, q: nat, bits: nat, v: nat, first: bool)
    requires i < |data| && q + bits <= 8 && v < Pow2(bits) && (first ==> q == 0)
    requires first || forall j | 8 * i + q <= j < 8 * i + 8 :: !RBits(data)[j]
    ensures var y := if first then v * Pow2(8 - bits - q) else BitOr(data[i], v * Pow2(8 - bits - q));
            y < 256 && Placed(RBits(data[i := y]), RBits(data), 8 * i + q, Msb(v, bits) + Zeros(8 - bits - q))
  {
    hide Placed, ByteBit, Msb, Pow2, BitOr, RBits;
    var x := if first then 0 else data[i];
    Blanks(data, i, q, first, x);
    var y := BitOr(x, v * Pow2(8 - bits - q));
    AddedByte(x, v, bits, q, y);
    if first { OrNothing(v * Pow2(8 - bits - q)); }
    ByteReplaced(data, i, y, q, Msb(v, bits) + Zeros(8 - bits - q));
  }

  lemma Blanks(data: seq<byte>, i: nat, q: nat, first: bool, x: byte)
    requires i < |data| && (first ==> x == 0) && (!first ==> x == data[i])
    requires first || forall j | 8 * i + q <= j < 8 * i + 8 :: !RBits(data)[j]
    ensures forall j | q <= j < 8 :: !FromTop(x, j)
  {
    forall j | q <= j < 8 ensures !FromTop(x, j) {
      if first {
        ShrZero(7 - j);
      } else {
        assert !RBits(data)[8 * i + j];
        assert (8 * i + j) / 8 == i && (8 * i + j) % 8 == j;
      }
    }
  }

  lemma {:induction false} OrNothing(b: nat)
    ensures BitOr(0, b) == b
  {
    if b > 0 { OrNothing(b / 2); }
  }
}
