/** From the pixels of an image to filtered scanlines and back. */
module Scanlines {
  import opened Bits
  import opened Options
  import opened Buffers
  import opened PngBits
  import opened PngFilter
  import opened Adam7
  import opened Interlace

  // ---------------------------------------------------------------- one image, or one pass

  /** The pixels that scanlines stand for: every row unfiltered, and its padding dropped. */
  ghost function Decoded(data: seq<byte>, w: nat, h: nat, bpp: nat): (r: Option<Bitstring>)
    requires Pos(1 + LineBytes(w, bpp), h) <= |data|
    ensures r.Some? ==> |r.value| == Pos(w * bpp, h)
  {
    var rows := UnfilterRows(ByteWidth(bpp), LineBytes(w, bpp), data, h);
    LineBits(w, bpp, h);
    if rows == None then None else Some(RemovePad(RBits(rows.value), w * bpp, 8 * LineBytes(w, bpp), h))
  }

  lemma LineBits(w: nat, bpp: nat, h: nat)
    ensures w * bpp <= 8 * LineBytes(w, bpp) && Pos(8 * LineBytes(w, bpp), h) == 8 * Pos(LineBytes(w, bpp), h)
    ensures bpp % 8 == 0 ==> w * bpp == 8 * LineBytes(w, bpp)
  {
    EightPos(LineBytes(w, bpp), h);
    if bpp % 8 == 0 { WholeBytes(w, bpp); }
  }

  lemma {:induction false} EightPos(n: nat, h: nat)
    ensures Pos(8 * n, h) == 8 * Pos(n, h)
  {
    if h > 0 { EightPos(n, h - 1); }
  }

  /** Scanlines made from the bits of an image: rows padded to whole bytes, then filtered with the types given. */
  ghost predicate IsScanlines(data: seq<byte>, bits: Bitstring, types: seq<byte>, w: nat, h: nat, bpp: nat) {
    && Pos(w * bpp, h) <= |bits| && h <= |types| && (forall y | 0 <= y < h :: types[y] <= 4)
    && exists padded: seq<byte> ::
         IsPadded(padded, bits, w, h, bpp) && data == FilterRows(types, ByteWidth(bpp), LineBytes(w, bpp), padded, h)
  }

  ghost predicate IsPadded(padded: seq<byte>, bits: Bitstring, w: nat, h: nat, bpp: nat)
    requires Pos(w * bpp, h) <= |bits|
    ensures IsPadded(padded, bits, w, h, bpp) ==> |padded| == Pos(LineBytes(w, bpp), h)
  {
    LineBits(w, bpp, h);
    RBits(padded) == AddPad(bits, 8 * LineBytes(w, bpp), w * bpp, h)
  }

  /** The scanlines of an image stand for its pixels, whatever types were chosen. */
  lemma ScanlinesDecoded(data: seq<byte>, bits: Bitstring, types: seq<byte>, w: nat, h: nat, bpp: nat)
    requires IsScanlines(data, bits, types, w, h, bpp)
    ensures |data| == Pos(1 + LineBytes(w, bpp), h) && Decoded(data, w, h, bpp) == Some(bits[..Pos(w * bpp, h)])
  {
    hide LineBytes, ByteWidth, Pos, RBits, RemovePad, AddPad, UnfilterRows, FilterRows;
    var lb := LineBytes(w, bpp);
    var padded: seq<byte> :|
      IsPadded(padded, bits, w, h, bpp) && data == FilterRows(types, ByteWidth(bpp), lb, padded, h);
    ImageInverse(types, ByteWidth(bpp), lb, padded, h);
    assert padded[..Pos(lb, h)] == padded;
    LineBits(w, bpp, h);
    PaddingInverse(bits, 8 * lb, w * bpp, h);
  }

  // ---------------------------------------------------------------- bytes and their bits

  /** Bytes that were put into a buffer are bits that were put there. */
  lemma PlacedBits(now: seq<byte>, was: seq<byte>, r: nat, u: seq<byte>)
    requires Placed(now, was, r, u)
    ensures Placed(RBits(now), RBits(was), 8 * r, RBits(u))
  {
    hide RBits;
    RBitsConcat(was[..r] + u, was[r + |u|..]);
    RBitsConcat(was[..r], u);
    RBitsSlice(was, 0, r);
    RBitsSlice(was, r + |u|, |was|);
  }

  lemma PlacedWhole<T>(now: seq<T>, was: seq<T>, u: seq<T>)
    requires Placed(now, was, 0, u) && |u| == |was|
    ensures now == u
  {
  }

  lemma {:induction false} NoPaddingAdded(src: Bitstring, lb: nat, n: nat)
    requires Pos(lb, n) <= |src|
    ensures AddPad(src, lb, lb, n) == src[..Pos(lb, n)]
  {
    if n > 0 {
      NoPaddingAdded(src, lb, n - 1);
      assert src[..Pos(lb, n)] == src[..Pos(lb, n - 1)] + src[Pos(lb, n - 1)..Pos(lb, n)] + Zeros(0);
    }
  }

  /** Rows of whole bytes are padded as they are. */
  lemma WholeRows(data: seq<byte>, base: nat, bits: Bitstring, w: nat, h: nat, bpp: nat)
    requires w * bpp == 8 * LineBytes(w, bpp) && base + Pos(LineBytes(w, bpp), h) <= |data|
    requires 8 * base + |bits| <= 8 * |data| && bits == RBits(data)[8 * base..8 * base + |bits|]
    requires Pos(w * bpp, h) <= |bits|
    ensures IsPadded(data[base..base + Pos(LineBytes(w, bpp), h)], bits, w, h, bpp)
  {
    hide RBits, AddPad, Pos, LineBytes;
    var lb := LineBytes(w, bpp);
    EightPos(lb, h);
    NoPaddingAdded(bits, 8 * lb, h);
    RBitsSlice(data, base, base + Pos(lb, h));
    assert RBits(data)[8 * base..8 * base + 8 * Pos(lb, h)] == bits[..8 * Pos(lb, h)];
  }

  // ---------------------------------------------------------------- preProcessScanlines

  predicate TypesOk(types: seq<byte>, h: nat) {
    h <= |types| && forall y | 0 <= y < h :: types[y] <= 4
  }

  /** Padded rows are filtered into the output. */
  method FilterPadded(out: array<byte>, outBase: nat, data: array<byte>, inBase: nat, w: nat, h: nat, bpp: nat,
                      types: seq<byte>, ghost bits: Bitstring) returns (ghost lines: seq<byte>)
    requires bpp > 0 && (w > 0 || h == 0) && out != data && TypesOk(types, h) && Pos(w * bpp, h) <= |bits|
    requires outBase + Pos(1 + LineBytes(w, bpp), h) <= out.Length && inBase + Pos(LineBytes(w, bpp), h) <= data.Length
    requires IsPadded(data[inBase..inBase + Pos(LineBytes(w, bpp), h)], bits, w, h, bpp)
    modifies out
    ensures IsScanlines(lines, bits, types, w, h, bpp) && |lines| == Pos(1 + LineBytes(w, bpp), h)
    ensures Placed(out[..], old(out[..]), outBase, lines)
  {
    hide Placed, Pos, LineBytes, IsPadded, FilterRows;
    ghost var padded := data[inBase..inBase + Pos(LineBytes(w, bpp), h)];
    var defined := Filter(out, outBase, data, inBase, w, h, bpp, types);
    lines := FilterRows(types, ByteWidth(bpp), LineBytes(w, bpp), padded, h);
  }

  /** Rows that start at a bit position that is a multiple of 8 are padded and filtered into the output. */
  method PadAndFilter(out: array<byte>, outBase: nat, image: array<byte>, inBase: nat, w: nat, h: nat, bpp: nat,
                      types: seq<byte>, ghost bits: Bitstring) returns (ghost lines: seq<byte>)
    requires bpp > 0 && (w > 0 || h == 0) && out != image && TypesOk(types, h)
    requires outBase + Pos(1 + LineBytes(w, bpp), h) <= out.Length && 8 * inBase + |bits| <= 8 * image.Length
    requires bits == RBits(image[..])[8 * inBase..8 * inBase + |bits|] && Pos(w * bpp, h) <= |bits|
    modifies out
    ensures IsScanlines(lines, bits, types, w, h, bpp) && |lines| == Pos(1 + LineBytes(w, bpp), h)
    ensures Placed(out[..], old(out[..]), outBase, lines)
  {
    hide Placed, Pos, LineBytes, AddPad, RBits, FilterRows, IsScanlines;
    LineBits(w, bpp, h);
    PosIs(LineBytes(w, bpp), h);
    var padded := new byte[h * LineBytes(w, bpp)];
    ghost var was := RBits(padded[..]);
    AddPaddingBits(padded, image, inBase, LineBytes(w, bpp) * 8, w * bpp, h);
    PaddedFrom(bits, RBits(image[..]), 8 * inBase, 8 * LineBytes(w, bpp), w * bpp, h);
    PlacedWhole(RBits(padded[..]), was, AddPad(bits, 8 * LineBytes(w, bpp), w * bpp, h));
    assert padded[0..0 + Pos(LineBytes(w, bpp), h)] == padded[..];
    lines := FilterPadded(out, outBase, padded, 0, w, h, bpp, types, bits);
  }

  lemma PaddedFrom(bits: Bitstring, all: Bitstring, o: nat, olb: nat, ilb: nat, h: nat)
    requires o + |bits| <= |all| && bits == all[o..o + |bits|] && Pos(ilb, h) <= |bits| && ilb <= olb
    ensures AddPad(all[o..o + Pos(ilb, h)], olb, ilb, h) == AddPad(bits, olb, ilb, h)
  {
    hide AddPad, Pos;
    var n := Pos(ilb, h);
    SliceInSlice(all, o, |bits|, 0, n);
    assert bits[..n] + bits[n..] == bits;
    AddPadPrefix(bits[..n], bits[n..], olb, ilb, h);
  }

  lemma {:induction false} AddPadPrefix(a: Bitstring, b: Bitstring, olb: nat, ilb: nat, n: nat)
    requires ilb <= olb && Pos(ilb, n) <= |a|
    ensures AddPad(a + b, olb, ilb, n) == AddPad(a, olb, ilb, n)
  {
    if n > 0 {
      AddPadPrefix(a, b, olb, ilb, n - 1);
      assert (a + b)[Pos(ilb, n - 1)..Pos(ilb, n)] == a[Pos(ilb, n - 1)..Pos(ilb, n)];
    }
  }

  /** Room for the pixels of an image. */
  ghost predicate Holds(image: array<byte>, w: nat, h: nat, bpp: nat) {
    Pos(w * bpp, h) <= 8 * image.Length
  }

  /** preProcessScanlines without interlacing */
  method PreProcessPlain(image: array<byte>, w: nat, h: nat, bpp: nat, types: seq<byte>) returns (out: array<byte>)
    requires w > 0 && (0 < bpp < 8 || (bpp > 0 && bpp % 8 == 0)) && Holds(image, w, h, bpp) && TypesOk(types, h)
    ensures fresh(out) && IsScanlines(out[..], RBits(image[..]), types, w, h, bpp)
  {
    hide Placed, Pos, LineBytes, RBits, IsScanlines, IsPadded;
    var lb := LineBytes(w, bpp);
    out := new byte[h + h * lb];
    ghost var was := out[..];
    ghost var lines: seq<byte>;
    PosIs(1 + lb, h);
    MulSum(1, lb, h);
    LineBits(w, bpp, h);
    assert RBits(image[..]) == RBits(image[..])[8 * 0..8 * 0 + |RBits(image[..])|];
    if bpp < 8 && w * bpp != lb * 8 {
      lines := PadAndFilter(out, 0, image, 0, w, h, bpp, types, RBits(image[..]));
    } else {
      WholeRows(image[..], 0, RBits(image[..]), w, h, bpp);
      assert image[..][0..0 + Pos(lb, h)] == image[0..0 + Pos(lb, h)];
      lines := FilterPadded(out, 0, image, 0, w, h, bpp, types, RBits(image[..]));
    }
    PlacedWhole(out[..], was, lines);
  }

  // ---------------------------------------------------------------- the seven passes

  /** Pixels that are moved as bytes are moved as bits. */
  lemma BytesAreBits(w: nat, h: nat, bpp: nat, image: seq<byte>, buffer: seq<byte>)
    requires bpp % 8 == 0 && ByteGeometry(w, h, bpp).Ok() && BitGeometry(w, h, bpp).Ok()
    requires Interlaced(ByteGeometry(w, h, bpp), image, buffer)
    ensures Interlaced(BitGeometry(w, h, bpp), RBits(image), RBits(buffer))
  {
    hide PassStart, RBits, Geometry.ImageAt, Geometry.BufferAt, PassW, PassH;
    var g, c := BitGeometry(w, h, bpp), ByteGeometry(w, h, bpp);
    forall p | g.Has(p) && Before(p, Place(7, 0, 0, 0))
      ensures g.ImageAt(p) < 8 * |image| && g.BufferAt(p) < 8 * |buffer|
              && RBits(image)[g.ImageAt(p)] == RBits(buffer)[g.BufferAt(p)]
    {
      var q := p.(b := p.b / 8);
      assert c.Has(q) && Before(q, Place(7, 0, 0, 0));
      BytePlace(w, h, bpp, p);
      SameBit(image, c.ImageAt(q), buffer, c.BufferAt(q), p.b % 8);
    }
  }

  lemma BytePlace(w: nat, h: nat, bpp: nat, p: Place)
    requires bpp % 8 == 0 && p.i < 7
    ensures BitGeometry(w, h, bpp).ImageAt(p) == 8 * ByteGeometry(w, h, bpp).ImageAt(p.(b := p.b / 8)) + p.b % 8
    ensures BitGeometry(w, h, bpp).BufferAt(p) == 8 * ByteGeometry(w, h, bpp).BufferAt(p.(b := p.b / 8)) + p.b % 8
  {
    hide PassStart, PixelAt, SlotAt, PassW;
    EightTimes(PixelAt(w, p.i, p.y, p.x), bpp);
    EightTimes(SlotAt(PassW(w, h, p.i), p.y, p.x), bpp);
  }

  lemma EightTimes(n: nat, bpp: nat)
    requires bpp % 8 == 0
    ensures n * bpp == 8 * (n * (bpp / 8))
  {
    WholeBytes(n, bpp);
  }

  lemma SameBit(a: seq<byte>, i: nat, b: seq<byte>, j: nat, k: nat)
    requires i < |a| && j < |b| && a[i] == b[j] && k < 8
    ensures RBits(a)[8 * i + k] == RBits(b)[8 * j + k]
  {
    assert (8 * i + k) / 8 == i && (8 * i + k) % 8 == k;
    assert (8 * j + k) / 8 == j && (8 * j + k) % 8 == k;
  }

  /** The scanlines of pass i within the data, and its bits within the interlaced buffer. */
  ghost function PassData(data: seq<byte>, w: nat, h: nat, bpp: nat, i: nat): (r: seq<byte>)
    requires i < 7 && FilterStart(w, h, bpp, i + 1) <= |data|
  {
    data[FilterStart(w, h, bpp, i)..FilterStart(w, h, bpp, i + 1)]
  }

  ghost function PassBuffer(buffer: Bitstring, w: nat, h: nat, bpp: nat, i: nat): (r: Bitstring)
    requires i < 7 && 8 * PassStart(w, h, bpp, i + 1) <= |buffer|
    ensures Pos(RowBits(w, h, bpp, i), PassH(w, h, i)) <= |r|
  {
    buffer[8 * PassStart(w, h, bpp, i)..8 * PassStart(w, h, bpp, i + 1)]
  }

  ghost predicate PassWritten(data: seq<byte>, buffer: Bitstring, types: seq<byte>, w: nat, h: nat, bpp: nat, i: nat)
    requires i < 7
  {
    && FilterStart(w, h, bpp, i + 1) <= |data| && 8 * PassStart(w, h, bpp, i + 1) <= |buffer|
    && IsScanlines(PassData(data, w, h, bpp, i), PassBuffer(buffer, w, h, bpp, i), types, PassW(w, h, i),
        PassH(w, h, i), bpp)
  }

  /** Scanlines of an interlaced image: those of the seven passes, one after another. */
  ghost predicate IsInterlacedScanlines(data: seq<byte>, image: Bitstring, types: seq<seq<byte>>, w: nat, h: nat,
                                        bpp: nat) {
    && |types| == 7 && BitGeometry(w, h, bpp).Ok() && |data| == FilterStart(w, h, bpp, 7)
    && exists buffer: Bitstring ::
         Interlaced(BitGeometry(w, h, bpp), image, buffer) && PassesWritten(data, buffer, types, w, h, bpp, 7)
  }

  ghost predicate PassesWritten(data: seq<byte>, buffer: Bitstring, types: seq<seq<byte>>, w: nat, h: nat, bpp: nat,
                                n: nat)
    requires |types| == 7 && n <= 7
  {
    forall i | 0 <= i < n :: PassWritten(data, buffer, types[i], w, h, bpp, i)
  }

  /** Writing the scanlines of the next pass leaves those of the passes before alone. */
  lemma PassAdded(now: seq<byte>, was: seq<byte>, lines: seq<byte>, buffer: Bitstring, types: seq<seq<byte>>,
                  w: nat, h: nat, bpp: nat, n: nat)
    requires |types| == 7 && n < 7 && PassesWritten(was, buffer, types, w, h, bpp, n)
    requires FilterStart(w, h, bpp, n + 1) <= |was| && 8 * PassStart(w, h, bpp, n + 1) <= |buffer|
    requires |lines| == Pos(1 + RowBytes(w, h, bpp, n), PassH(w, h, n))
    requires IsScanlines(lines, PassBuffer(buffer, w, h, bpp, n), types[n], PassW(w, h, n), PassH(w, h, n), bpp)
    requires Placed(now, was, FilterStart(w, h, bpp, n), lines)
    ensures PassesWritten(now, buffer, types, w, h, bpp, n + 1)
  {
    hide IsScanlines, Placed, PassW, PassH, RowBytes, Pos, PassStart;
    PlacedAt(now, was, FilterStart(w, h, bpp, n), lines);
    assert PassData(now, w, h, bpp, n) == lines;
    forall i | 0 <= i < n ensures PassWritten(now, buffer, types[i], w, h, bpp, i) {
      assert PassWritten(was, buffer, types[i], w, h, bpp, i);
      StartsMono(w, h, bpp, i + 1, n);
      SameFront(now, was, FilterStart(w, h, bpp, n), FilterStart(w, h, bpp, i), FilterStart(w, h, bpp, i + 1));
    }
  }

  lemma SameFront<T>(a: seq<T>, b: seq<T>, n: nat, i: nat, j: nat)
    requires i <= j <= n <= |a| && |a| == |b| && forall k | 0 <= k < n :: a[k] == b[k]
    ensures a[i..j] == b[i..j]
  {
  }

  predicate AllTypesOk(types: seq<seq<byte>>, w: nat, h: nat) {
    |types| == 7 && forall i | 0 <= i < 7 :: TypesOk(types[i], PassH(w, h, i))
  }

  /** One pass of preProcessScanlines: bits, or bytes that need no padding. */
  method WritePass(out: array<byte>, adam7: array<byte>, w: nat, h: nat, bpp: nat, i: nat, types: seq<byte>)
    returns (ghost lines: seq<byte>)
    requires (0 < bpp < 8 || (bpp > 0 && bpp % 8 == 0)) && i < 7 && out != adam7 && TypesOk(types, PassH(w, h, i))
    requires FilterStart(w, h, bpp, i + 1) <= out.Length && PassStart(w, h, bpp, i + 1) <= adam7.Length
    modifies out
    ensures IsScanlines(lines, PassBuffer(RBits(adam7[..]), w, h, bpp, i), types, PassW(w, h, i), PassH(w, h, i), bpp)
    ensures |lines| == Pos(1 + RowBytes(w, h, bpp, i), PassH(w, h, i))
    ensures Placed(out[..], old(out[..]), FilterStart(w, h, bpp, i), lines)
  {
    hide PassW, PassH, Pos, LineBytes, RBits, IsPadded, IsScanlines, Placed, TypesOk, AllTypesOk;
    var passw, passh := PassW(w, h, i), PassH(w, h, i);
    ghost var all := RBits(adam7[..]);
    ghost var bits := PassBuffer(all, w, h, bpp, i);
    PassEmpty(w, h, i);
    StartsOrdered(w, h, bpp, i);
    if bpp < 8 {
      lines := PadAndFilter(out, FilterStart(w, h, bpp, i), adam7, PassStart(w, h, bpp, i), passw, passh, bpp, types,
          bits);
    } else {
      ghost var o := PassStart(w, h, bpp, i);
      LineBits(passw, bpp, passh);
      WholeRows(adam7[..], o, bits, passw, passh, bpp);
      assert adam7[..][o..o + Pos(LineBytes(passw, bpp), passh)] == adam7[o..o + Pos(LineBytes(passw, bpp), passh)];
      lines := FilterPadded(out, FilterStart(w, h, bpp, i), adam7, PaddedStart(w, h, bpp, i), passw, passh, bpp, types,
          bits);
    }
  }

  /** preProcessScanlines with Adam7 */
  method PreProcessInterlaced(image: array<byte>, w: nat, h: nat, bpp: nat, types: seq<seq<byte>>)
    returns (out: array<byte>)
    requires (0 < bpp < 8 || (bpp > 0 && bpp % 8 == 0)) && Holds(image, w, h, bpp) && AllTypesOk(types, w, h)
    ensures fresh(out) && IsInterlacedScanlines(out[..], RBits(image[..]), types, w, h, bpp)
  {
    hide PassW, PassH, Pos, LineBytes, RBits, IsScanlines, Placed, FilterStart, PassStart, Geometry.Ok, Interlaced,
         Geometry.ImageSize, PassesWritten, AllTypesOk;
    out := new byte[FilterStart(w, h, bpp, 7)];
    var adam7 := new byte[PassStart(w, h, bpp, 7)];
    Adam7Interlace(adam7, image, w, h, bpp);
    ghost var buffer := RBits(adam7[..]);
    NoPassWritten(out[..], buffer, types, w, h, bpp);
    for i := 0 to 7
      invariant out.Length == FilterStart(w, h, bpp, 7) && RBits(adam7[..]) == buffer
      invariant PassesWritten(out[..], buffer, types, w, h, bpp, i)
    {
      ghost var was := out[..];
      StartsMono(w, h, bpp, i + 1, 7);
      ghost var lines := WritePass(out, adam7, w, h, bpp, i, types[i]);
      PassAdded(out[..], was, lines, buffer, types, w, h, bpp, i);
    }
  }

  lemma NoPassWritten(data: seq<byte>, buffer: Bitstring, types: seq<seq<byte>>, w: nat, h: nat, bpp: nat)
    requires AllTypesOk(types, w, h)
    ensures |types| == 7 && PassesWritten(data, buffer, types, w, h, bpp, 0)
    ensures forall i | 0 <= i < 7 :: TypesOk(types[i], PassH(w, h, i))
  {
  }

  /** Adam7_interlace */
  method Adam7Interlace(out: array<byte>, image: array<byte>, w: nat, h: nat, bpp: nat)
    requires (0 < bpp < 8 || (bpp > 0 && bpp % 8 == 0)) && out != image && Holds(image, w, h, bpp)
    requires out.Length == PassStart(w, h, bpp, 7)
    modifies out
    ensures BitGeometry(w, h, bpp).Ok() && Interlaced(BitGeometry(w, h, bpp), RBits(image[..]), RBits(out[..]))
  {
    hide Pos, RBits, PassStart, Interlaced, Geometry.Ok, Cells;
    ImageBits(w, h, bpp);
    BitGeometryOk(w, h, bpp);
    if bpp >= 8 {
      InterlaceBytes(out, image, w, h, bpp);
      BytesAreBits(w, h, bpp, image[..], out[..]);
    } else {
      InterlaceBits(out, image, w, h, bpp);
    }
  }

  lemma ImageBits(w: nat, h: nat, bpp: nat)
    ensures BitGeometry(w, h, bpp).ImageSize() == Pos(w * bpp, h) == w * h * bpp
    ensures bpp % 8 == 0 ==> 8 * ByteGeometry(w, h, bpp).ImageSize() == Pos(w * bpp, h)
  {
    hide Pos;
    PosIs(w * bpp, h);
    MulAssoc(h, w, bpp);
    if bpp % 8 == 0 { EightCells(h, w, bpp); }
  }

  // ---------------------------------------------------------------- postProcessScanlines

  /** Only the scanlines themselves matter. */
  lemma UnfilterOnly(data: seq<byte>, n: nat, w: nat, h: nat, bpp: nat)
    requires n == Pos(1 + LineBytes(w, bpp), h) <= |data|
    ensures UnfilterRows(ByteWidth(bpp), LineBytes(w, bpp), data[..n], h)
            == UnfilterRows(ByteWidth(bpp), LineBytes(w, bpp), data, h)
  {
    hide UnfilterRows, ByteWidth, LineBytes, Pos;
    UnfilterPrefix(ByteWidth(bpp), LineBytes(w, bpp), data[..n], data[n..], h);
    assert data[..n] + data[n..] == data;
  }

  /** Rows of whole bytes are pixels as they are. */
  lemma WholeRowsDecoded(data: seq<byte>, w: nat, h: nat, bpp: nat)
    requires w * bpp == 8 * LineBytes(w, bpp) && Pos(1 + LineBytes(w, bpp), h) <= |data|
    ensures var rows := UnfilterRows(ByteWidth(bpp), LineBytes(w, bpp), data, h);
            Decoded(data, w, h, bpp) == if rows.Some? then Some(RBits(rows.value)) else None
  {
    hide UnfilterRows, ByteWidth, LineBytes, Pos, RBits, RemovePad;
    var rows := UnfilterRows(ByteWidth(bpp), LineBytes(w, bpp), data, h);
    if rows.Some? {
      EightPos(LineBytes(w, bpp), h);
      NoPadding(RBits(rows.value), w * bpp, h);
      assert RBits(rows.value)[..Pos(w * bpp, h)] == RBits(rows.value);
    }
  }

  /** The bits of bytes that were put into a buffer. */
  lemma PlacedRows(now: seq<byte>, was: seq<byte>, r: nat, u: seq<byte>)
    requires Placed(now, was, r, u)
    ensures r + |u| <= |now| == |was| && RBits(now)[8 * r..8 * r + 8 * |u|] == RBits(u)
    ensures forall k | 0 <= k < |now| && (k < r || r + |u| <= k) :: now[k] == was[k]
  {
    hide RBits, Placed;
    PlacedBits(now, was, r, u);
    PlacedAt(now, was, r, u);
    PlacedAt(RBits(now), RBits(was), 8 * r, RBits(u));
  }

  /**
   * postProcessScanlines without interlacing. If rows end within a byte, the input buffer is first
   * unfiltered in place; the result is the same as with buffers of their own.
   */
  method PostProcessPlain(out: array<byte>, input: array<byte>, w: nat, h: nat, bpp: nat) returns (error: nat)
    requires w > 0 && (0 < bpp < 8 || (bpp > 0 && bpp % 8 == 0)) && out != input && Holds(out, w, h, bpp)
    requires Pos(1 + LineBytes(w, bpp), h) <= input.Length
    modifies out, input
    ensures var bits := old(Decoded(input[..], w, h, bpp));
            if bits.Some? then error == 0 && Placed(RBits(out[..]), old(RBits(out[..])), 0, bits.value) else error == 36
  {
    hide Placed, Pos, LineBytes, ByteWidth, RBits, UnfilterRows, RemovePad;
    var lb := LineBytes(w, bpp);
    ghost var data, was := input[..], out[..];
    ghost var rows := UnfilterRows(ByteWidth(bpp), lb, data, h);
    LineBits(w, bpp, h);
    RowBehind(lb, h);
    UnfilterOnly(data, Pos(1 + lb, h), w, h, bpp);
    assert input[0..0 + Pos(1 + lb, h)] == data[..Pos(1 + lb, h)];
    var defined;
    if bpp < 8 && w * bpp != lb * 8 {
      defined, error := Unfilter(input, 0, input, 0, w, h, bpp);
      if error != 0 { return; }
      PlacedRows(input[..], data, 0, rows.value);
      RemovePaddingBits(out, 0, input, 0, w * bpp, lb * 8, h);
    } else {
      WholeRowsDecoded(data, w, h, bpp);
      defined, error := Unfilter(out, 0, input, 0, w, h, bpp);
      if error == 0 { PlacedBits(out[..], was, 0, rows.value); }
    }
  }

  lemma PlacedBytes(now: seq<byte>, was: seq<byte>, r: nat, u: Bitstring)
    requires Placed(RBits(now), RBits(was), 8 * r, u)
    ensures |now| == |was| && forall k | 0 <= k < |now| && (k < r || 8 * r + |u| <= 8 * k) :: now[k] == was[k]
  {
    hide RBits, Placed;
    PlacedAt(RBits(now), RBits(was), 8 * r, u);
    forall k | 0 <= k < |now| && (k < r || 8 * r + |u| <= 8 * k) ensures now[k] == was[k] {
      RBitsSlice(now, k, k + 1);
      RBitsSlice(was, k, k + 1);
      assert RBits(now)[8 * k..8 * (k + 1)] == RBits(was)[8 * k..8 * (k + 1)];
      RBitsInjective(now[k..k + 1], was[k..k + 1]);
      assert now[k..k + 1][0] == now[k] && was[k..k + 1][0] == was[k];
    }
  }

  lemma SameFrontBits(a: seq<byte>, b: seq<byte>, n: nat, i: nat, j: nat)
    requires i <= j <= 8 * n && n <= |a| && |a| == |b| && forall k | 0 <= k < n :: a[k] == b[k]
    ensures RBits(a)[i..j] == RBits(b)[i..j]
  {
    forall m | 0 <= m < 8 * n ensures RBits(a)[m] == RBits(b)[m] {
      assert a[m / 8] == b[m / 8];
    }
    SameFront(RBits(a), RBits(b), 8 * n, i, j);
  }

  /** The scanlines from pass n on have not been touched. */
  ghost predicate Untouched(now: seq<byte>, data: seq<byte>, w: nat, h: nat, bpp: nat, n: nat)
    requires n <= 7
  {
    |now| == |data| && forall k | FilterStart(w, h, bpp, n) <= k < |now| :: now[k] == data[k]
  }

  ghost function PassDecoded(data: seq<byte>, w: nat, h: nat, bpp: nat, i: nat): (r: Option<Bitstring>)
    requires i < 7 && FilterStart(w, h, bpp, i + 1) <= |data|
    ensures r.Some? ==> |r.value| == Pos(RowBits(w, h, bpp, i), PassH(w, h, i))
  {
    Decoded(PassData(data, w, h, bpp, i), PassW(w, h, i), PassH(w, h, i), bpp)
  }

  /** The pixels of pass i stand at their place in the buffer. */
  ghost predicate PassRead(buffer: Bitstring, data: seq<byte>, w: nat, h: nat, bpp: nat, i: nat)
    requires i < 7
  {
    && FilterStart(w, h, bpp, i + 1) <= |data| && 8 * PassStart(w, h, bpp, i + 1) <= |buffer|
    && PassDecoded(data, w, h, bpp, i).Some?
    && PassBuffer(buffer, w, h, bpp, i)[..Pos(RowBits(w, h, bpp, i), PassH(w, h, i))]
       == PassDecoded(data, w, h, bpp, i).value
  }

  ghost predicate PassesRead(buffer: Bitstring, data: seq<byte>, w: nat, h: nat, bpp: nat, n: nat)
    requires n <= 7
  {
    forall i | 0 <= i < n :: PassRead(buffer, data, w, h, bpp, i)
  }

  lemma PassReadIs(buffer: Bitstring, data: seq<byte>, w: nat, h: nat, bpp: nat, i: nat, bits: Bitstring)
    requires i < 7 && FilterStart(w, h, bpp, i + 1) <= |data| && 8 * PassStart(w, h, bpp, i + 1) <= |buffer|
    requires PassDecoded(data, w, h, bpp, i) == Some(bits)
    requires 8 * PassStart(w, h, bpp, i) + |bits| <= |buffer|
    requires buffer[8 * PassStart(w, h, bpp, i)..8 * PassStart(w, h, bpp, i) + |bits|] == bits
    ensures PassRead(buffer, data, w, h, bpp, i)
  {
    hide PassDecoded, Pos, PassW, PassH;
    SliceInSlice(buffer, 8 * PassStart(w, h, bpp, i), 8 * (PassStart(w, h, bpp, i + 1) - PassStart(w, h, bpp, i)), 0,
        |bits|);
  }

  /** What unfilter finds for pass i is what the data had there at first. */
  lemma StillThere(now: seq<byte>, data: seq<byte>, w: nat, h: nat, bpp: nat, i: nat)
    requires i < 7 && Untouched(now, data, w, h, bpp, i) && FilterStart(w, h, bpp, i + 1) <= |data|
    ensures FilterStart(w, h, bpp, i) + Pos(1 + LineBytes(PassW(w, h, i), bpp), PassH(w, h, i))
            == FilterStart(w, h, bpp, i + 1)
    ensures now[FilterStart(w, h, bpp, i)..FilterStart(w, h, bpp, i + 1)] == PassData(data, w, h, bpp, i)
  {
    hide LineBytes, Pos, PassW, PassH;
  }

  /**
   * One pass of postProcessScanlines: unfiltering and dropping the padding in one buffer. What is before
   * the pass, and the scanlines of the passes to come, stay as they are.
   */
  method ReadPass(input: array<byte>, w: nat, h: nat, bpp: nat, i: nat, ghost data: seq<byte>) returns (error: nat)
    requires (0 < bpp < 8 || (bpp > 0 && bpp % 8 == 0)) && i < 7
    requires Untouched(input[..], data, w, h, bpp, i) && FilterStart(w, h, bpp, i + 1) <= input.Length
    modifies input
    ensures PassDecoded(data, w, h, bpp, i) == None ==> error == 36
    ensures PassDecoded(data, w, h, bpp, i).Some? ==> error == 0 && PassRead(RBits(input[..]), data, w, h, bpp, i)
    ensures PassDecoded(data, w, h, bpp, i).Some? ==> Untouched(input[..], data, w, h, bpp, i + 1)
    ensures PassDecoded(data, w, h, bpp, i).Some? ==>
              forall k | 0 <= k < PassStart(w, h, bpp, i) && k < input.Length :: input[k] == old(input[k])
  {
    hide Placed, Pos, LineBytes, ByteWidth, RBits, UnfilterRows, RemovePad, PassW, PassH, FilterStart, PassStart,
         PaddedStart, PassRead;
    var passw, passh := PassW(w, h, i), PassH(w, h, i);
    ghost var was, rest := input[..], PassData(data, w, h, bpp, i);
    PassEmpty(w, h, i);
    PassBounds(w, h, bpp, i);
    StillThere(was, data, w, h, bpp, i);
    ghost var rows := UnfilterRows(ByteWidth(bpp), LineBytes(passw, bpp), rest, passh);
    LineBits(passw, bpp, passh);
    var defined;
    defined, error := Unfilter(input, PaddedStart(w, h, bpp, i), input, FilterStart(w, h, bpp, i), passw, passh, bpp);
    if error != 0 { return; }
    ghost var mid := input[..];
    PlacedRows(mid, was, PaddedStart(w, h, bpp, i), rows.value);
    if bpp < 8 {
      RemovePaddingBits(input, PassStart(w, h, bpp, i), input, PaddedStart(w, h, bpp, i), passw * bpp,
          LineBytes(passw, bpp) * 8, passh);
      ghost var bits := PassDecoded(data, w, h, bpp, i).value;
      PlacedBytes(input[..], mid, PassStart(w, h, bpp, i), bits);
      PlacedAt(RBits(input[..]), RBits(mid), 8 * PassStart(w, h, bpp, i), bits);
      PassReadIs(RBits(input[..]), data, w, h, bpp, i, bits);
    } else {
      WholeRowsDecoded(rest, passw, passh, bpp);
      PassReadIs(RBits(input[..]), data, w, h, bpp, i, RBits(rows.value));
    }
  }

  /** How the regions of a pass lie. */
  lemma PassBounds(w: nat, h: nat, bpp: nat, i: nat)
    requires i < 7
    ensures PassStart(w, h, bpp, i) <= PaddedStart(w, h, bpp, i) <= FilterStart(w, h, bpp, i)
    ensures PassStart(w, h, bpp, i + 1) <= PaddedStart(w, h, bpp, i + 1) <= FilterStart(w, h, bpp, i + 1)
    ensures PaddedStart(w, h, bpp, i) + Pos(LineBytes(PassW(w, h, i), bpp), PassH(w, h, i))
            == PaddedStart(w, h, bpp, i + 1)
    ensures 8 * PassStart(w, h, bpp, i) + Pos(PassW(w, h, i) * bpp, PassH(w, h, i)) <= 8 * PassStart(w, h, bpp, i + 1)
    ensures bpp % 8 == 0 ==> PassStart(w, h, bpp, i) == PaddedStart(w, h, bpp, i)
  {
    hide LineBytes, Pos, PassW, PassH;
    StartsOrdered(w, h, bpp, i);
    StartsOrdered(w, h, bpp, i + 1);
  }

  /** Reading the next pass leaves the pixels of the passes before alone. */
  lemma PassReadNext(now: seq<byte>, was: seq<byte>, data: seq<byte>, w: nat, h: nat, bpp: nat, n: nat)
    requires n < 7 && PassesRead(RBits(was), data, w, h, bpp, n) && PassRead(RBits(now), data, w, h, bpp, n)
    requires |now| == |was| && PassStart(w, h, bpp, n) <= |now|
    requires forall k | 0 <= k < PassStart(w, h, bpp, n) && k < |now| :: now[k] == was[k]
    ensures PassesRead(RBits(now), data, w, h, bpp, n + 1)
  {
    hide RBits, PassDecoded, Pos, PassW, PassH, FilterStart, PassStart;
    forall i | 0 <= i < n ensures PassRead(RBits(now), data, w, h, bpp, i) {
      assert PassRead(RBits(was), data, w, h, bpp, i);
      StartsMono(w, h, bpp, i, i + 1);
      StartsMono(w, h, bpp, i + 1, n);
      SameFrontBits(now, was, PassStart(w, h, bpp, n), 8 * PassStart(w, h, bpp, i), 8 * PassStart(w, h, bpp, i + 1));
    }
  }

  /** Every pass has filter types that exist. */
  ghost predicate AllDecoded(data: seq<byte>, w: nat, h: nat, bpp: nat)
    requires FilterStart(w, h, bpp, 7) <= |data|
  {
    forall i | 0 <= i < 7 :: PassReadable(data, w, h, bpp, i)
  }

  ghost predicate PassReadable(data: seq<byte>, w: nat, h: nat, bpp: nat, i: nat)
    requires i < 7
  {
    FilterStart(w, h, bpp, i + 1) <= |data| && PassDecoded(data, w, h, bpp, i).Some?
  }

  /** The image holds the pixels of all seven passes. */
  ghost predicate Deinterlaced(image: Bitstring, data: seq<byte>, w: nat, h: nat, bpp: nat) {
    && BitGeometry(w, h, bpp).Ok()
    && exists buffer: Bitstring ::
         Interlaced(BitGeometry(w, h, bpp), image, buffer) && PassesRead(buffer, data, w, h, bpp, 7)
  }

  /** postProcessScanlines with Adam7. For pixels smaller than a byte the output must be 0 everywhere. */
  method PostProcessInterlaced(out: array<byte>, input: array<byte>, w: nat, h: nat, bpp: nat) returns (error: nat)
    requires (0 < bpp < 8 || (bpp > 0 && bpp % 8 == 0)) && out != input && Holds(out, w, h, bpp)
    requires FilterStart(w, h, bpp, 7) <= input.Length
    requires bpp < 8 ==> forall j | 0 <= j < 8 * out.Length :: !RBits(out[..])[j]
    modifies out, input
    ensures if old(AllDecoded(input[..], w, h, bpp)) then
              error == 0 && Deinterlaced(RBits(out[..]), old(input[..]), w, h, bpp)
            else error == 36
  {
    hide Pos, RBits, PassW, PassH, FilterStart, PassStart, PassRead, PassDecoded, Interlaced, Geometry.Ok,
         Geometry.ImageSize, Untouched;
    ghost var data := input[..];
    UntouchedStart(data, w, h, bpp);
    for i := 0 to 7
      invariant |data| == input.Length && Untouched(input[..], data, w, h, bpp, i)
      invariant forall k | 0 <= k < i :: PassReadable(data, w, h, bpp, k)
      invariant PassesRead(RBits(input[..]), data, w, h, bpp, i)
      invariant out[..] == old(out[..])
    {
      ghost var was := input[..];
      PassFits(w, h, bpp, i);
      error := ReadPass(input, w, h, bpp, i, data);
      assert PassReadable(data, w, h, bpp, i) <==> error == 0;
      if error != 0 { return; }
      PassReadNext(input[..], was, data, w, h, bpp, i);
    }
    PassFits(w, h, bpp, 6);
    Adam7Deinterlace(out, input, w, h, bpp);
    error := 0;
  }

  lemma UntouchedStart(data: seq<byte>, w: nat, h: nat, bpp: nat)
    ensures Untouched(data, data, w, h, bpp, 0)
  {
  }

  lemma PassFits(w: nat, h: nat, bpp: nat, i: nat)
    requires i < 7
    ensures FilterStart(w, h, bpp, i + 1) <= FilterStart(w, h, bpp, 7)
    ensures PassStart(w, h, bpp, i) <= PassStart(w, h, bpp, 7) <= FilterStart(w, h, bpp, 7)
  {
    hide FilterStart, PassStart, PaddedStart;
    StartsMono(w, h, bpp, i + 1, 7);
    StartsMono(w, h, bpp, i, 7);
    StartsOrdered(w, h, bpp, 7);
  }

  /** Adam7_deinterlace */
  method Adam7Deinterlace(out: array<byte>, input: array<byte>, w: nat, h: nat, bpp: nat)
    requires (0 < bpp < 8 || (bpp > 0 && bpp % 8 == 0)) && out != input && Holds(out, w, h, bpp)
    requires PassStart(w, h, bpp, 7) <= input.Length
    requires bpp < 8 ==> forall j | 0 <= j < 8 * out.Length :: !RBits(out[..])[j]
    modifies out
    ensures BitGeometry(w, h, bpp).Ok() && Interlaced(BitGeometry(w, h, bpp), RBits(out[..]), RBits(input[..]))
  {
    hide Pos, RBits, PassStart, Interlaced, Geometry.Ok, Cells;
    ImageBits(w, h, bpp);
    BitGeometryOk(w, h, bpp);
    if bpp >= 8 {
      DeinterlaceBytes(out, input, w, h, bpp);
      BytesAreBits(w, h, bpp, out[..], input[..]);
    } else {
      DeinterlaceBits(out, input, w, h, bpp);
    }
  }

  // ---------------------------------------------------------------- round trips

  lemma PassesDecoded(data: seq<byte>, buffer: Bitstring, types: seq<seq<byte>>, w: nat, h: nat, bpp: nat, i: nat)
    requires |types| == 7 && i < 7 && PassWritten(data, buffer, types[i], w, h, bpp, i)
    ensures PassDecoded(data, w, h, bpp, i)
            == Some(PassBuffer(buffer, w, h, bpp, i)[..Pos(RowBits(w, h, bpp, i), PassH(w, h, i))])
  {
    hide IsScanlines, Pos, PassW, PassH, FilterStart, PassStart, Decoded;
    ScanlinesDecoded(PassData(data, w, h, bpp, i), PassBuffer(buffer, w, h, bpp, i), types[i], PassW(w, h, i),
        PassH(w, h, i), bpp);
  }

  /** Two buffers with the same passes agree at the place of every pixel. */
  lemma PassAgrees(a: Bitstring, b: Bitstring, w: nat, h: nat, bpp: nat, p: Place)
    requires BitGeometry(w, h, bpp).Ok() && BitGeometry(w, h, bpp).Has(p) && p.i < 7
    requires 8 * PassStart(w, h, bpp, p.i + 1) <= |a| && 8 * PassStart(w, h, bpp, p.i + 1) <= |b|
    requires var n := Pos(RowBits(w, h, bpp, p.i), PassH(w, h, p.i));
             PassBuffer(a, w, h, bpp, p.i)[..n] == PassBuffer(b, w, h, bpp, p.i)[..n]
    ensures var j := BitGeometry(w, h, bpp).BufferAt(p); j < |a| && j < |b| && a[j] == b[j]
  {
    hide Pos, PassW, PassH, PassStart, Geometry.BufferAt, Geometry.Has, RowBits, Cells;
    var g := BitGeometry(w, h, bpp);
    g.BufferAtFits(p);
    PassBits(w, h, bpp, p.i);
    PassBounds(w, h, bpp, p.i);
    var j, n, o := g.BufferAt(p), Pos(RowBits(w, h, bpp, p.i), PassH(w, h, p.i)), 8 * PassStart(w, h, bpp, p.i);
    assert PassBuffer(a, w, h, bpp, p.i)[..n][j - o] == a[j];
    assert PassBuffer(b, w, h, bpp, p.i)[..n][j - o] == b[j];
  }

  lemma PassesAgree(data: seq<byte>, a: Bitstring, b: Bitstring, types: seq<seq<byte>>, w: nat, h: nat, bpp: nat,
                    p: Place)
    requires |types| == 7 && BitGeometry(w, h, bpp).Ok() && BitGeometry(w, h, bpp).Has(p) && p.i < 7
    requires PassesWritten(data, a, types, w, h, bpp, 7) && PassesRead(b, data, w, h, bpp, 7)
    ensures var j := BitGeometry(w, h, bpp).BufferAt(p); j < |a| && j < |b| && a[j] == b[j]
  {
    hide Pos, PassW, PassH, PassStart, FilterStart, Geometry.BufferAt, Geometry.Has, Geometry.Ok, RowBits, IsScanlines,
         PassDecoded;
    assert PassWritten(data, a, types[p.i], w, h, bpp, p.i) && PassRead(b, data, w, h, bpp, p.i);
    PassesDecoded(data, a, types, w, h, bpp, p.i);
    PassAgrees(a, b, w, h, bpp, p);
  }

  /** What is read from the scanlines of an interlaced image is that image. */
  lemma InterlacedInverse(data: seq<byte>, image: Bitstring, out: Bitstring, types: seq<seq<byte>>, w: nat, h: nat,
                          bpp: nat)
    requires IsInterlacedScanlines(data, image, types, w, h, bpp) && Deinterlaced(out, data, w, h, bpp)
    ensures w * h * bpp <= |image| && w * h * bpp <= |out| && out[..w * h * bpp] == image[..w * h * bpp]
  {
    hide PassesWritten, PassesRead, Interlaced, Geometry.Has, Geometry.BufferAt, Geometry.Ok, PassStart, FilterStart;
    var g := BitGeometry(w, h, bpp);
    var a: Bitstring :| Interlaced(g, image, a) && PassesWritten(data, a, types, w, h, bpp, 7);
    var b: Bitstring :| Interlaced(g, out, b) && PassesRead(b, data, w, h, bpp, 7);
    forall p | g.Has(p)
      ensures p.i < 7 && g.BufferAt(p) < |a| && g.BufferAt(p) < |b| && a[g.BufferAt(p)] == b[g.BufferAt(p)]
    {
      InTime(g, p);
      PassesAgree(data, a, b, types, w, h, bpp, p);
    }
    LastStart(b, data, w, h, bpp);
    InterlacedBuffer(g, image, a, b);
    InterlacedOnce(g, image, out, b);
    ImageBits(w, h, bpp);
  }

  lemma LastStart(b: Bitstring, data: seq<byte>, w: nat, h: nat, bpp: nat)
    requires PassesRead(b, data, w, h, bpp, 7)
    ensures BitGeometry(w, h, bpp).starts[7] <= |b|
  {
    hide PassDecoded;
    assert PassRead(b, data, w, h, bpp, 6);
  }

  lemma InterlacedDecodes(data: seq<byte>, image: Bitstring, types: seq<seq<byte>>, w: nat, h: nat, bpp: nat)
    requires IsInterlacedScanlines(data, image, types, w, h, bpp)
    ensures FilterStart(w, h, bpp, 7) == |data| && AllDecoded(data, w, h, bpp)
  {
    hide Interlaced, IsScanlines, Geometry.Ok, Decoded, PassStart, FilterStart, PassData;
    var g := BitGeometry(w, h, bpp);
    var a: Bitstring :| Interlaced(g, image, a) && PassesWritten(data, a, types, w, h, bpp, 7);
    forall i | 0 <= i < 7 ensures PassReadable(data, w, h, bpp, i) {
      assert PassWritten(data, a, types[i], w, h, bpp, i);
      PassesDecoded(data, a, types, w, h, bpp, i);
    }
  }

  /** Encoding and decoding without interlacing: the pixels come back, for every size and every choice of filters. */
  method PlainRoundTrip(image: array<byte>, out: array<byte>, w: nat, h: nat, bpp: nat, types: seq<byte>)
    returns (error: nat)
    requires w > 0 && (0 < bpp < 8 || (bpp > 0 && bpp % 8 == 0)) && image != out
    requires Holds(image, w, h, bpp) && Holds(out, w, h, bpp) && TypesOk(types, h)
    modifies out
    ensures error == 0 && w * h * bpp <= 8 * image.Length && w * h * bpp <= 8 * out.Length
    ensures RBits(out[..])[..w * h * bpp] == RBits(image[..])[..w * h * bpp]
  {
    hide Pos, RBits, LineBytes, IsScanlines, Placed, Decoded;
    ghost var was := RBits(out[..]);
    var lines := PreProcessPlain(image, w, h, bpp, types);
    ScanlinesDecoded(lines[..], RBits(image[..]), types, w, h, bpp);
    error := PostProcessPlain(out, lines, w, h, bpp);
    ImageBits(w, h, bpp);
    PlacedAt(RBits(out[..]), was, 0, RBits(image[..])[..w * h * bpp]);
  }

  /** Encoding and decoding with Adam7. */
  method InterlacedRoundTrip(image: array<byte>, out: array<byte>, w: nat, h: nat, bpp: nat, types: seq<seq<byte>>)
    returns (error: nat)
    requires (0 < bpp < 8 || (bpp > 0 && bpp % 8 == 0)) && image != out
    requires Holds(image, w, h, bpp) && Holds(out, w, h, bpp) && AllTypesOk(types, w, h)
    requires bpp < 8 ==> forall j | 0 <= j < 8 * out.Length :: !RBits(out[..])[j]
    modifies out
    ensures error == 0 && w * h * bpp <= 8 * image.Length && w * h * bpp <= 8 * out.Length
    ensures RBits(out[..])[..w * h * bpp] == RBits(image[..])[..w * h * bpp]
  {
    hide Pos, RBits, IsInterlacedScanlines, Deinterlaced, AllDecoded, FilterStart;
    ghost var bits := RBits(image[..]);
    var lines := PreProcessInterlaced(image, w, h, bpp, types);
    ghost var data := lines[..];
    InterlacedDecodes(data, bits, types, w, h, bpp);
    error := PostProcessInterlaced(out, lines, w, h, bpp);
    InterlacedInverse(data, bits, RBits(out[..]), types, w, h, bpp);
  }
}
