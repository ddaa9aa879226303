/** The growing output buffer with its bit pointer, and reading bits from an input buffer. */
module BitStream {
  import opened Bits

  /** A buffer holding bp bits: the unused bits of its last byte are zero. */
  ghost predicate Padded(data: seq<byte>, bp: nat) {
    && |data| == (bp + 7) / 8
    && forall i | bp <= i < 8 * |data| :: !Bit(data, i)
  }

  lemma WriteBit(data: seq<byte>, bp: nat, bit: bool)
    requires Padded(data, bp)
    ensures var d := if bp % 8 == 0 then data + [0] else data;
            |d| > 0 &&
            var e := d[|d| - 1 := OrBit(d[|d| - 1], bp % 8, bit)];
            Padded(e, bp + 1) && BitsOf(e)[..bp + 1] == BitsOf(data)[..bp] + [bit]
  {
    var d := if bp % 8 == 0 then data + [0] else data;
    forall k | 0 <= k < 8 ensures !ByteBit(0, k) { ShrZero(k); }
    var last := |d| - 1;
    assert last == bp / 8;
    assert forall i | 0 <= i < bp :: Bit(d, i) == Bit(data, i);
    assert forall i | bp <= i < 8 * |d| :: !Bit(d, i);
    var e := d[last := OrBit(d[last], bp % 8, bit)];
    forall i | 0 <= i < 8 * |d|
      ensures Bit(e, i) == (Bit(d, i) || (bit && i == bp))
    {
      if i / 8 == last { OrBitAt(d[last], bp % 8, bit, i % 8); }
    }
    FirstBits(data, e, bp, bit);
  }

  lemma FirstBits(data: seq<byte>, e: seq<byte>, bp: nat, bit: bool)
    requires bp <= 8 * |data| && bp < 8 * |e| && Bit(e, bp) == bit
    requires forall i | 0 <= i < bp :: Bit(e, i) == Bit(data, i)
    ensures BitsOf(e)[..bp + 1] == BitsOf(data)[..bp] + [bit]
  {
    var l, r := BitsOf(e)[..bp + 1], BitsOf(data)[..bp] + [bit];
    assert forall i | 0 <= i < bp + 1 :: l[i] == r[i];
  }

  /**
   * The `ucvector` that the encoder fills together with the bit pointer `bp` that travels with it.
   * The last byte of `data` may be only partly used; its unused bits are zero.
   */
  class BitWriter {
    var data: seq<byte>
    var bp: nat

    ghost predicate Valid()
      reads this
    {
      Padded(data, bp)
    }

    /** The bits written so far. */
    ghost function Contents(): (s: Bitstring)
      requires Valid()
      reads this
      ensures |s| == bp
    {
      BitsOf(data)[..bp]
    }

    constructor ()
      ensures Valid() && Contents() == [] && data == []
    {
      data, bp := [], 0;
    }

    /** addBitToStream */
    method AddBit(bit: bool)
      requires Valid()
      modifies this
      ensures Valid() && Contents() == old(Contents()) + [bit]
    {
      WriteBit(data, bp, bit);
      if bp % 8 == 0 {
        data := data + [0];
      }
      data := data[|data| - 1 := OrBit(data[|data| - 1], bp % 8, bit)];
      bp := bp + 1;
    }

    /** addBitsToStream: the low `nbits` bits of `value`, lowest first. */
    method AddBits(value: nat, nbits: nat)
      requires Valid()
      modifies this
      ensures Valid() && Contents() == old(Contents()) + Lsb(value, nbits)
    {
      for i := 0 to nbits
        invariant Valid() && Contents() == old(Contents()) + Lsb(value, i)
      {
        LsbExtend(value, i);
        AddBit(Shr(value, i) % 2 == 1);
      }
    }

    /** addBitsToStreamReversed: the low `nbits` bits of `value`, highest first. */
    method AddBitsReversed(value: nat, nbits: nat)
      requires Valid()
      modifies this
      ensures Valid() && Contents() == old(Contents()) + Msb(value, nbits)
    {
      for i := 0 to nbits
        invariant Valid() && Contents() == old(Contents()) + Msb(value, nbits)[..i]
      {
        MsbAt(value, nbits, i);
        AddBit(Shr(value, nbits - 1 - i) % 2 == 1);
      }
    }
  }

  /**
   * READBIT. The original guards most but not all of its reads; a read past the end of the buffer,
   * which it leaves undefined, yields zero here.
   */
  function ReadBit(data: seq<byte>, i: nat): (v: nat)
    ensures v <= 1
  {
    if i < 8 * |data| && Bit(data, i) then 1 else 0
  }

  /** readBitsFromStream */
  method ReadBits(bp: nat, data: seq<byte>, nbits: nat) returns (result: nat, bp': nat)
    ensures bp' == bp + nbits
    ensures bp + nbits <= 8 * |data| ==> result == Value(BitsOf(data)[bp..bp + nbits])
    ensures result < Pow2(nbits)
  {
    hide BitsOf, Value, Bit;
    result, bp' := 0, bp;
    Nothing(data, bp);
    for i := 0 to nbits
      invariant bp' == bp + i && result < Pow2(i)
      invariant bp + nbits <= 8 * |data| ==> result == Value(BitsOf(data)[bp..bp + i])
    {
      if bp + nbits <= 8 * |data| { NextBit(data, bp, i); }
      result := result + ReadBit(data, bp') * Pow2(i);
      bp' := bp' + 1;
    }
  }

  lemma NextBit(data: seq<byte>, bp: nat, i: nat)
    requires bp + i < 8 * |data|
    ensures Value(BitsOf(data)[bp..bp + i + 1]) == Value(BitsOf(data)[bp..bp + i]) + ReadBit(data, bp + i) * Pow2(i)
  {
    hide Value, Pow2;
    var s := BitsOf(data);
    ValueAppend(s[bp..bp + i], s[bp + i]);
    assert s[bp..bp + i] + [s[bp + i]] == s[bp..bp + i + 1];
  }

  lemma Nothing(data: seq<byte>, bp: nat)
    ensures bp <= 8 * |data| ==> Value(BitsOf(data)[bp..bp]) == 0
  {
  }

  /** A number written lowest bit first is read back. */
  lemma ReadBackLsb(data: seq<byte>, bp: nat, v: nat, n: nat)
    requires At(BitsOf(data), bp, Lsb(v, n)) && v < Pow2(n)
    ensures Value(BitsOf(data)[bp..bp + n]) == v
  {
    hide Lsb, Value, BitsOf, Pow2;
    ValueLsb(v, n);
  }
}
