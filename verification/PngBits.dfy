/** Bits of an image buffer, most significant bit of each byte first, and rows that are not whole bytes. */
module PngBits {
  import opened Bits
  import opened Buffers

  // ---------------------------------------------------------------- single bits

  /** Bit i of a buffer, counted from the high end of each byte. */
  function RBit(data: seq<byte>, i: nat): bool
    requires i < 8 * |data|
  {
    ByteBit(data[i / 8], 7 - i % 8)
  }

  function RBits(data: seq<byte>): (s: Bitstring)
    ensures |s| == 8 * |data|
    ensures forall i | 0 <= i < 8 * |data| :: s[i] == RBit(data, i)
  {
    seq(8 * |data|, i requires 0 <= i < 8 * |data| => RBit(data, i))
  }

  lemma RBitsSlice(data: seq<byte>, a: nat, b: nat)
    requires a <= b <= |data|
    ensures RBits(data[a..b]) == RBits(data)[8 * a..8 * b]
  {
    var s, t := RBits(data[a..b]), RBits(data)[8 * a..8 * b];
    forall i | 0 <= i < |s| ensures s[i] == t[i] {
      assert (8 * a + i) / 8 == a + i / 8 && (8 * a + i) % 8 == i % 8;
    }
  }

  lemma RBitsConcat(a: seq<byte>, b: seq<byte>)
    ensures RBits(a + b) == RBits(a) + RBits(b)
  {
    var l, r := RBits(a + b), RBits(a) + RBits(b);
    forall i | 0 <= i < |l| ensures l[i] == r[i] {
      if i >= 8 * |a| {
        assert (i - 8 * |a|) / 8 == i / 8 - |a| && (i - 8 * |a|) % 8 == i % 8;
      }
    }
  }

  /** Different buffers of one length have different bits. */
  lemma RBitsInjective(a: seq<byte>, b: seq<byte>)
    requires RBits(a) == RBits(b)
    ensures a == b
  {
    forall i | 0 <= i < |a| ensures a[i] == b[i] {
      forall k | 0 <= k < 8 ensures ByteBit(a[i], k) == ByteBit(b[i], k) {
        assert RBits(a)[8 * i + (7 - k)] == RBits(b)[8 * i + (7 - k)];
        assert (8 * i + (7 - k)) / 8 == i && (8 * i + (7 - k)) % 8 == 7 - k;
      }
      ByteBitsInjective(a[i], b[i]);
    }
  }

  lemma {:induction false} SubBit(v: nat, n: nat, k: nat)
    requires k < n && Lsb(v, n)[k]
    ensures Pow2(k) <= v && Lsb(v - Pow2(k), n) == Lsb(v, n)[k := false]
  {
    var t := Lsb(v / 2, n - 1);
    if k == 0 {
      assert (v - 1) / 2 == v / 2 && (v - 1) % 2 == 0;
      assert ([true] + t)[0 := false] == [false] + t;
    } else {
      assert Lsb(v, n)[k] == t[k - 1];
      SubBit(v / 2, n - 1, k - 1);
      assert (v - Pow2(k)) / 2 == v / 2 - Pow2(k - 1) && (v - Pow2(k)) % 2 == v % 2;
      assert ([v % 2 == 1] + t)[k := false] == [v % 2 == 1] + t[k - 1 := false];
    }
  }

  /** b & ~(1 << k) */
  function ClearBit(b: byte, k: nat): (r: byte)
    requires k < 8
    ensures forall i | 0 <= i < 8 :: ByteBit(r, i) == (ByteBit(b, i) && i != k)
  {
    if ByteBit(b, k) then
      ByteBitsAt(b);
      SubBit(b, 8, k);
      ByteBitsAt(b - Pow2(k));
      b - Pow2(k)
    else b
  }

  lemma SetInBuffer(data: seq<byte>, bp: nat, x: byte, bit: bool)
    requires bp < 8 * |data|
    requires forall i | 0 <= i < 8 :: ByteBit(x, i) == if i == 7 - bp % 8 then bit else ByteBit(data[bp / 8], i)
    ensures RBits(data[bp / 8 := x]) == RBits(data)[bp := bit]
  {
    var s, t := RBits(data[bp / 8 := x]), RBits(data)[bp := bit];
    forall i | 0 <= i < |s| ensures s[i] == t[i] {
      if i / 8 == bp / 8 && i % 8 == bp % 8 {
        assert i == bp;
      }
    }
  }

  /** readBitFromReversedStream */
  method ReadBitFromReversedStream(bitpointer: nat, bitstream: array<byte>) returns (bit: bool, next: nat)
    requires bitpointer < 8 * bitstream.Length
    ensures bit == RBits(bitstream[..])[bitpointer] && next == bitpointer + 1
  {
    bit := ByteBit(bitstream[bitpointer / 8], 7 - bitpointer % 8);
    next := bitpointer + 1;
  }

  /** setBitOfReversedStream0: right only where the bit is still 0 */
  method SetBitOfReversedStream0(bitpointer: nat, bitstream: array<byte>, bit: bool) returns (next: nat)
    requires bitpointer < 8 * bitstream.Length && !RBits(bitstream[..])[bitpointer]
    modifies bitstream
    ensures RBits(bitstream[..]) == old(RBits(bitstream[..]))[bitpointer := bit] && next == bitpointer + 1
  {
    hide OrBit;
    ghost var was := bitstream[..];
    var x := bitstream[bitpointer / 8];
    if bit {
      x := OrBit(x, 7 - bitpointer % 8, true);
      bitstream[bitpointer / 8] := x;
    }
    SetInBuffer(was, bitpointer, x, bit);
    assert bitstream[..] == was[bitpointer / 8 := x];
    next := bitpointer + 1;
  }

  /** setBitOfReversedStream */
  method SetBitOfReversedStream(bitpointer: nat, bitstream: array<byte>, bit: bool) returns (next: nat)
    requires bitpointer < 8 * bitstream.Length
    modifies bitstream
    ensures RBits(bitstream[..]) == old(RBits(bitstream[..]))[bitpointer := bit] && next == bitpointer + 1
  {
    hide OrBit, ClearBit;
    ghost var was := bitstream[..];
    var x := bitstream[bitpointer / 8];
    if !bit {
      x := ClearBit(x, 7 - bitpointer % 8);
    } else {
      x := OrBit(x, 7 - bitpointer % 8, true);
    }
    bitstream[bitpointer / 8] := x;
    SetInBuffer(was, bitpointer, x, bit);
    assert bitstream[..] == was[bitpointer / 8 := x];
    next := bitpointer + 1;
  }

  /** Reading a bit and writing it elsewhere, perhaps in the same buffer. */
  method CopyBit(out: array<byte>, obp: nat, input: array<byte>, ibp: nat) returns (obp': nat, ibp': nat)
    requires obp < 8 * out.Length && ibp < 8 * input.Length
    modifies out
    ensures obp' == obp + 1 && ibp' == ibp + 1
    ensures RBits(out[..]) == old(RBits(out[..]))[obp := old(RBits(input[..])[ibp])]
    ensures RBits(input[..]) == if input == out then RBits(out[..]) else old(RBits(input[..]))
  {
    hide RBits;
    var bit;
    bit, ibp' := ReadBitFromReversedStream(ibp, input);
    obp' := SetBitOfReversedStream(obp, out, bit);
  }

  // ---------------------------------------------------------------- rows that end within a byte

  function Zeros(n: nat): (s: Bitstring)
    ensures |s| == n
  {
    seq(n, i => false)
  }

  /** The first n rows, each filled up from ilb to olb bits. */
  function AddPad(src: Bitstring, olb: nat, ilb: nat, n: nat): (r: Bitstring)
    requires ilb <= olb && Pos(ilb, n) <= |src|
    ensures |r| == Pos(olb, n)
  {
    if n == 0 then []
    else AddPad(src, olb, ilb, n - 1) + src[Pos(ilb, n - 1)..Pos(ilb, n)] + Zeros(olb - ilb)
  }

  /** The first n rows of ilb bits, each cut down to its first olb bits. */
  function RemovePad(src: Bitstring, olb: nat, ilb: nat, n: nat): (r: Bitstring)
    requires olb <= ilb && Pos(ilb, n) <= |src|
    ensures |r| == Pos(olb, n)
  {
    if n == 0 then []
    else RemovePad(src, olb, ilb, n - 1) + src[Pos(ilb, n - 1)..Pos(ilb, n - 1) + olb]
  }

  lemma {:induction false} RemovePrefix(a: Bitstring, b: Bitstring, olb: nat, ilb: nat, n: nat)
    requires olb <= ilb && Pos(ilb, n) <= |a|
    ensures RemovePad(a + b, olb, ilb, n) == RemovePad(a, olb, ilb, n)
  {
    if n > 0 {
      RemovePrefix(a, b, olb, ilb, n - 1);
      var s := Pos(ilb, n - 1);
      assert (a + b)[s..s + olb] == a[s..s + olb];
    }
  }

  /** Removing the padding gives the rows back. */
  lemma {:induction false} PaddingInverse(src: Bitstring, olb: nat, ilb: nat, n: nat)
    requires ilb <= olb && Pos(ilb, n) <= |src|
    ensures RemovePad(AddPad(src, olb, ilb, n), ilb, olb, n) == src[..Pos(ilb, n)]
  {
    if n > 0 {
      var front, line := AddPad(src, olb, ilb, n - 1), src[Pos(ilb, n - 1)..Pos(ilb, n)];
      PaddingInverse(src, olb, ilb, n - 1);
      RemovePrefix(front, line + Zeros(olb - ilb), ilb, olb, n - 1);
      assert front + (line + Zeros(olb - ilb)) == AddPad(src, olb, ilb, n);
      assert AddPad(src, olb, ilb, n)[Pos(olb, n - 1)..Pos(olb, n - 1) + ilb] == line;
      assert src[..Pos(ilb, n)] == src[..Pos(ilb, n - 1)] + line;
    }
  }

  /** Rows of whole bytes have no padding. */
  lemma {:induction false} NoPadding(src: Bitstring, lb: nat, n: nat)
    requires Pos(lb, n) <= |src|
    ensures RemovePad(src, lb, lb, n) == src[..Pos(lb, n)]
  {
    if n > 0 {
      NoPadding(src, lb, n - 1);
      assert src[..Pos(lb, n)] == src[..Pos(lb, n - 1)] + src[Pos(lb, n - 1)..Pos(lb, n)];
    }
  }

  // ---------------------------------------------------------------- moving bits

  /**
   * Bits on the way from one place to another, perhaps in one buffer: u has been written from bit o on,
   * and of the source src, which starts at bit i, all is still there from position s on.
   */
  ghost predicate Moving(now: Bitstring, input: Bitstring, was: Bitstring, o: nat, i: nat, src: Bitstring, u: Bitstring,
                         s: nat) {
    && Placed(now, was, o, u) && i + |src| <= |input|
    && forall j | s <= j < |src| :: input[i + j] == src[j]
  }

  lemma MovingNow(now: Bitstring, input: Bitstring, was: Bitstring, o: nat, i: nat, src: Bitstring, u: Bitstring,
                  s: nat)
    requires Moving(now, input, was, o, i, src, u, s) && s < |src|
    ensures |now| == |was| && i + s < |input| && input[i + s] == src[s]
  {
  }

  lemma MovingBit(now: Bitstring, mid: Bitstring, input': Bitstring, input: Bitstring, was: Bitstring, o: nat, i: nat,
                  src: Bitstring, u: Bitstring, s: nat)
    requires Moving(mid, input, was, o, i, src, u, s) && s < |src| && o + |u| < |was| == |mid|
    requires now == mid[o + |u| := src[s]]
    requires input' == input || (input == mid && input' == now && o + |u| <= i + s)
    ensures Moving(now, input', was, o, i, src, u + [src[s]], s + 1)
  {
    hide Placed;
    PlacedStep(mid, was, o, u, src[s]);
  }

  lemma MovingSkip(now: Bitstring, input: Bitstring, was: Bitstring, o: nat, i: nat, src: Bitstring, u: Bitstring,
                   s: nat, s': nat)
    requires Moving(now, input, was, o, i, src, u, s) && s <= s'
    ensures Moving(now, input, was, o, i, src, u, s')
  {
  }

  lemma MovingStart(was: Bitstring, input: Bitstring, o: nat, i: nat, src: Bitstring)
    requires o <= |was| && i + |src| <= |input| && src == input[i..i + |src|]
    ensures Moving(was, input, was, o, i, src, [], 0)
  {
    PlacedStart(was, o);
  }

  lemma MovingEnd(now: Bitstring, input: Bitstring, was: Bitstring, o: nat, i: nat, src: Bitstring, u: Bitstring,
                  s: nat)
    requires Moving(now, input, was, o, i, src, u, s)
    ensures Placed(now, was, o, u)
  {
  }

  lemma {:induction false} PosMono(a: nat, b: nat, n: nat)
    requires a <= b
    ensures Pos(a, n) <= Pos(b, n)
  {
    if n > 0 { PosMono(a, b, n - 1); }
  }

  /** The rows so far, and x bits of the row at hand. */
  ghost function Upto(u: Bitstring, src: Bitstring, line: nat, x: nat): (r: Bitstring)
    requires line + x <= |src|
    ensures |r| == |u| + x
  {
    u + src[line..line + x]
  }

  lemma RowBit(u: Bitstring, src: Bitstring, line: nat, x: nat)
    requires line + x < |src|
    ensures Upto(u, src, line, x) + [src[line + x]] == Upto(u, src, line, x + 1)
  {
  }

  lemma RowStart(u: Bitstring, src: Bitstring, line: nat)
    requires line <= |src|
    ensures Upto(u, src, line, 0) == u
  {
  }

  /** One row of removePaddingBits: n bits from position ibp to position obp. */
  method MoveRow(out: array<byte>, outBase: nat, obp: nat, input: array<byte>, inBase: nat, ibp: nat, n: nat,
                 ghost was: Bitstring, ghost src: Bitstring, ghost u: Bitstring)
    requires Moving(RBits(out[..]), RBits(input[..]), was, 8 * outBase, 8 * inBase, src, u, ibp)
    requires obp == |u| && 8 * outBase + obp + n <= |was| == 8 * out.Length && ibp + n <= |src|
    requires out == input ==> 8 * outBase + obp <= 8 * inBase + ibp
    modifies out
    ensures Moving(RBits(out[..]), RBits(input[..]), was, 8 * outBase, 8 * inBase, src, Upto(u, src, ibp, n), ibp + n)
  {
    hide Placed, Moving, RBits, Upto;
    RowStart(u, src, ibp);
    for x := 0 to n
      invariant Moving(RBits(out[..]), RBits(input[..]), was, 8 * outBase, 8 * inBase, src, Upto(u, src, ibp, x),
          ibp + x)
    {
      ghost var mid, from := RBits(out[..]), RBits(input[..]);
      MovingNow(mid, from, was, 8 * outBase, 8 * inBase, src, Upto(u, src, ibp, x), ibp + x);
      var _, _ := CopyBit(out, 8 * outBase + obp + x, input, 8 * inBase + ibp + x);
      MovingBit(RBits(out[..]), mid, RBits(input[..]), from, was, 8 * outBase, 8 * inBase, src, Upto(u, src, ibp, x),
          ibp + x);
      RowBit(u, src, ibp, x);
    }
  }

  /**
   * removePaddingBits. The buffers may be one, with the output not behind the input: no bit is
   * overwritten before it has been read.
   */
  method RemovePaddingBits(out: array<byte>, outBase: nat, input: array<byte>, inBase: nat, olinebits: nat,
                           ilinebits: nat, h: nat)
    requires olinebits <= ilinebits
    requires 8 * outBase + Pos(olinebits, h) <= 8 * out.Length && 8 * inBase + Pos(ilinebits, h) <= 8 * input.Length
    requires out == input ==> outBase <= inBase
    modifies out
    ensures Placed(RBits(out[..]), old(RBits(out[..])), 8 * outBase,
                   RemovePad(old(RBits(input[..]))[8 * inBase..8 * inBase + Pos(ilinebits, h)], olinebits, ilinebits,
                       h))
  {
    hide Placed, Moving, RBits, Pos, RemovePad, Upto;
    var diff := ilinebits - olinebits;
    var ibp: nat, obp: nat := 0, 0;
    ghost var o, i, was := 8 * outBase, 8 * inBase, RBits(out[..]);
    ghost var src := RBits(input[..])[i..i + Pos(ilinebits, h)];
    PadStart(src, olinebits, ilinebits);
    MovingStart(was, RBits(input[..]), o, i, src);
    for y := 0 to h
      invariant obp == Pos(olinebits, y) && ibp == Pos(ilinebits, y) <= |src|
      invariant Moving(RBits(out[..]), RBits(input[..]), was, o, i, src, RemovePad(src, olinebits, ilinebits, y), ibp)
    {
      RowFits(olinebits, y, h);
      RowFits(ilinebits, y, h);
      PosMono(olinebits, ilinebits, y);
      MoveRow(out, outBase, obp, input, inBase, ibp, olinebits, was, src, RemovePad(src, olinebits, ilinebits, y));
      obp, ibp := obp + olinebits, ibp + olinebits;
      PadNext(src, olinebits, ilinebits, y);
      MovingSkip(RBits(out[..]), RBits(input[..]), was, o, i, src, RemovePad(src, olinebits, ilinebits, y + 1), ibp,
          ibp + diff);
      ibp := ibp + diff;
    }
    MovingEnd(RBits(out[..]), RBits(input[..]), was, o, i, src, RemovePad(src, olinebits, ilinebits, h), ibp);
  }

  lemma PadStart(src: Bitstring, olb: nat, ilb: nat)
    ensures Pos(olb, 0) == Pos(ilb, 0) == 0
    ensures olb <= ilb ==> RemovePad(src, olb, ilb, 0) == []
    ensures ilb <= olb ==> AddPad(src, olb, ilb, 0) == []
  {
  }

  lemma PadNext(src: Bitstring, olb: nat, ilb: nat, y: nat)
    requires olb <= ilb && Pos(ilb, y + 1) <= |src|
    ensures Pos(ilb, y) + ilb == Pos(ilb, y + 1)
    ensures RemovePad(src, olb, ilb, y + 1) == Upto(RemovePad(src, olb, ilb, y), src, Pos(ilb, y), olb)
  {
  }

  lemma AddNext(src: Bitstring, olb: nat, ilb: nat, y: nat)
    requires ilb <= olb && Pos(ilb, y + 1) <= |src|
    ensures Pos(ilb, y) + ilb == Pos(ilb, y + 1)
    ensures AddPad(src, olb, ilb, y + 1) == Upto(AddPad(src, olb, ilb, y), src, Pos(ilb, y), ilb) + Zeros(olb - ilb)
  {
  }

  /** addPaddingBits */
  method AddPaddingBits(out: array<byte>, input: array<byte>, inBase: nat, olinebits: nat, ilinebits: nat, h: nat)
    requires ilinebits <= olinebits && out != input
    requires Pos(olinebits, h) <= 8 * out.Length && 8 * inBase + Pos(ilinebits, h) <= 8 * input.Length
    modifies out
    ensures Placed(RBits(out[..]), old(RBits(out[..])), 0,
                   AddPad(RBits(input[..])[8 * inBase..8 * inBase + Pos(ilinebits, h)], olinebits, ilinebits, h))
  {
    hide Placed, RBits, Pos, AddPad, Zeros, Upto;
    var diff := olinebits - ilinebits;
    var obp: nat, ibp: nat := 0, 0;
    ghost var was := RBits(out[..]);
    ghost var src := RBits(input[..])[8 * inBase..8 * inBase + Pos(ilinebits, h)];
    PadStart(src, olinebits, ilinebits);
    PlacedStart(was, 0);
    for y := 0 to h
      invariant obp == Pos(olinebits, y) && ibp == Pos(ilinebits, y) <= |src|
      invariant Placed(RBits(out[..]), was, 0, AddPad(src, olinebits, ilinebits, y))
    {
      RowFits(olinebits, y, h);
      RowFits(ilinebits, y, h);
      ghost var u, line := AddPad(src, olinebits, ilinebits, y), ibp;
      RowStart(u, src, line);
      for x := 0 to ilinebits
        invariant obp == |u| + x && ibp == line + x
        invariant Placed(RBits(out[..]), was, 0, Upto(u, src, line, x))
      {
        var bit, ibp' := ReadBitFromReversedStream(8 * inBase + ibp, input);
        PlacedStep(RBits(out[..]), was, 0, Upto(u, src, line, x), src[line + x]);
        obp := SetBitOfReversedStream(obp, out, bit);
        RowBit(u, src, line, x);
        ibp := ibp' - 8 * inBase;
      }
      ghost var v := Upto(u, src, line, ilinebits);
      assert v + Zeros(0) == v;
      for x := 0 to diff
        invariant obp == |v| + x
        invariant Placed(RBits(out[..]), was, 0, v + Zeros(x))
      {
        PlacedStep(RBits(out[..]), was, 0, v + Zeros(x), false);
        ZerosNext(v, x);
        obp := SetBitOfReversedStream(obp, out, false);
      }
      AddNext(src, olinebits, ilinebits, y);
    }
  }

  lemma ZerosNext(v: Bitstring, x: nat)
    ensures v + Zeros(x) + [false] == v + Zeros(x + 1)
  {
  }
}
