/** Moving pixels between the image and its seven passes. */
module Interlace {
  import opened Bits
  import opened Buffers
  import opened PngBits
  import opened Adam7

  // ---------------------------------------------------------------- positions

  lemma DigitFits(a: nat, b: nat, m: nat, n: nat)
    requires a < m && b < n
    ensures a * n + b < m * n
  {
    MulMono(a + 1, m, n);
    MulSum(a, 1, n);
  }

  /** Element b of pixel (x, y) of pass i; an element is a byte, or a bit for pixels smaller than a byte. */
  datatype Place = Place(i: nat, y: nat, x: nat, b: nat)

  /** The order in which the loops reach the places. */
  ghost predicate Before(p: Place, q: Place) {
    p.i < q.i || (p.i == q.i && (p.y < q.y || (p.y == q.y && (p.x < q.x || (p.x == q.x && p.b < q.b)))))
  }

  /** The index of a pixel in the image. */
  function PixelAt(w: nat, i: nat, y: nat, x: nat): nat
    requires i < 7
  {
    (ADAM7_IY[i] + y * ADAM7_DY[i]) * w + ADAM7_IX[i] + x * ADAM7_DX[i]
  }

  /** The number of a pixel within its pass, for rows of n pixels. */
  function SlotAt(n: nat, y: nat, x: nat): nat {
    y * n + x
  }

  /** The index of element b of that pixel. */
  function ElementAt(unit: nat, n: nat, y: nat, x: nat, b: nat): nat {
    SlotAt(n, y, x) * unit + b
  }

  function Cells(rows: nat, columns: nat, unit: nat): nat {
    rows * columns * unit
  }

  /** An image of w * h pixels of `unit` elements, and where its passes start in the interlaced buffer. */
  datatype Geometry = Geometry(w: nat, h: nat, unit: nat, starts: seq<nat>) {

    function PassSize(i: nat): nat
      requires i < 7
    {
      Cells(PassH(w, h, i), PassW(w, h, i), unit)
    }

    ghost predicate Ok() {
      |starts| == 8 && forall i | 0 <= i < 7 :: starts[i] + PassSize(i) <= starts[i + 1]
    }

    function ImageSize(): nat {
      Cells(h, w, unit)
    }

    ghost predicate Has(p: Place) {
      p.i < 7 && p.y < PassH(w, h, p.i) && p.x < PassW(w, h, p.i) && p.b < unit
    }

    ghost function ImageAt(p: Place): nat
      requires p.i < 7
    {
      PixelAt(w, p.i, p.y, p.x) * unit + p.b
    }

    ghost function BufferAt(p: Place): nat
      requires p.i < 7 && |starts| == 8
    {
      starts[p.i] + ElementAt(unit, PassW(w, h, p.i), p.y, p.x, p.b)
    }

    lemma ImageAtFits(p: Place)
      requires Has(p)
      ensures ImageAt(p) < ImageSize()
    {
      hide PassW, PassH, PassOf;
      PassPixel(w, h, p.i, p.x, p.y);
      DigitFits(ADAM7_IY[p.i] + p.y * ADAM7_DY[p.i], ADAM7_IX[p.i] + p.x * ADAM7_DX[p.i], h, w);
      DigitFits(PixelAt(w, p.i, p.y, p.x), p.b, h * w, unit);
    }

    /** No two places share an element of the image. */
    lemma ImageAtInjective(p: Place, q: Place)
      requires Has(p) && Has(q) && ImageAt(p) == ImageAt(q)
      ensures p == q
    {
      hide PassW, PassH, PassOf;
      PassPixel(w, h, p.i, p.x, p.y);
      PassPixel(w, h, q.i, q.x, q.y);
      Digit(PixelAt(w, p.i, p.y, p.x), p.b, PixelAt(w, q.i, q.y, q.x), q.b, unit);
      Digit(ADAM7_IY[p.i] + p.y * ADAM7_DY[p.i], ADAM7_IX[p.i] + p.x * ADAM7_DX[p.i],
            ADAM7_IY[q.i] + q.y * ADAM7_DY[q.i], ADAM7_IX[q.i] + q.x * ADAM7_DX[q.i], w);
      assert p.i == q.i;
      SameFactor(p.y, q.y, ADAM7_DY[p.i]);
      SameFactor(p.x, q.x, ADAM7_DX[p.i]);
    }

    /** Every element of the image has a place. */
    lemma ImageCovered(j: nat) returns (p: Place)
      requires j < ImageSize()
      ensures Has(p) && ImageAt(p) == j
    {
      hide PassW, PassH, PixelAt;
      var pixel, b := SplitIndex(j, h * w, unit);
      var y, x := SplitIndex(pixel, h, w);
      var i, py, px := PlaceOf(w, h, x, y);
      p := Place(i, py, px, b);
    }

    lemma BufferAtFits(p: Place)
      requires Ok() && Has(p)
      ensures starts[p.i] <= BufferAt(p) < starts[p.i] + PassSize(p.i)
    {
      hide PassW, PassH;
      DigitFits(p.y, p.x, PassH(w, h, p.i), PassW(w, h, p.i));
      DigitFits(p.y * PassW(w, h, p.i) + p.x, p.b, PassH(w, h, p.i) * PassW(w, h, p.i), unit);
    }

    lemma {:induction false} StartsSorted(i: nat, j: nat)
      requires Ok() && i <= j <= 7
      ensures starts[i] <= starts[j]
    {
      if i < j { StartsSorted(i, j - 1); }
    }

    /** No two places share an element of the interlaced buffer. */
    lemma BufferAtInjective(p: Place, q: Place)
      requires Ok() && Has(p) && Has(q) && BufferAt(p) == BufferAt(q)
      ensures p == q
    {
      hide PassW, PassH;
      BufferAtFits(p);
      BufferAtFits(q);
      if p.i < q.i {
        StartsSorted(p.i + 1, q.i);
      } else if q.i < p.i {
        StartsSorted(q.i + 1, p.i);
      } else {
        Digit(p.y * PassW(w, h, p.i) + p.x, p.b, q.y * PassW(w, h, p.i) + q.x, q.b, unit);
        Digit(p.y, p.x, q.y, q.x, PassW(w, h, p.i));
      }
    }
  }

  lemma SameFactor(a: nat, b: nat, d: nat)
    requires d > 0 && a * d == b * d
    ensures a == b
  {
    Digit(a, 0, b, 0, d);
  }

  /** Where a pixel of the image stands among those of its pass. */
  lemma PlaceOf(w: nat, h: nat, x: nat, y: nat) returns (i: nat, py: nat, px: nat)
    requires x < w && y < h
    ensures i < 7 && py < PassH(w, h, i) && px < PassW(w, h, i) && PixelAt(w, i, py, px) == y * w + x
  {
    hide PassW, PassH, PassOf;
    PixelCovered(w, h, x, y);
    i := PassOf(x, y);
    py, px := (y - ADAM7_IY[i]) / ADAM7_DY[i], (x - ADAM7_IX[i]) / ADAM7_DX[i];
  }

  lemma SplitIndex(j: nat, m: nat, n: nat) returns (a: nat, b: nat)
    requires j < m * n
    ensures a < m && b < n && a * n + b == j
  {
    if n == 0 {
      assert false;
    } else {
      a, b := j / n, j % n;
      if m <= a { MulMono(m, a, n); }
    }
  }

  // ---------------------------------------------------------------- image and buffer hold the same pixels

  /** Image and buffer agree at all places before one. */
  ghost predicate Agree<T>(g: Geometry, image: seq<T>, buffer: seq<T>, upto: Place)
    requires g.Ok()
  {
    forall p | g.Has(p) && Before(p, upto) ::
      g.ImageAt(p) < |image| && g.BufferAt(p) < |buffer| && image[g.ImageAt(p)] == buffer[g.BufferAt(p)]
  }

  /** They agree everywhere. */
  ghost predicate Interlaced<T>(g: Geometry, image: seq<T>, buffer: seq<T>)
    requires g.Ok()
  {
    Agree(g, image, buffer, Place(7, 0, 0, 0))
  }

  /** Only one image goes with a buffer. */
  lemma InterlacedOnce<T>(g: Geometry, a: seq<T>, b: seq<T>, buffer: seq<T>)
    requires g.Ok() && Interlaced(g, a, buffer) && Interlaced(g, b, buffer)
    ensures g.ImageSize() <= |a| && g.ImageSize() <= |b| && a[..g.ImageSize()] == b[..g.ImageSize()]
  {
    hide Geometry.Has, Geometry.ImageAt, Geometry.BufferAt, Geometry.ImageSize;
    forall j | 0 <= j < g.ImageSize() ensures j < |a| && j < |b| && a[j] == b[j] {
      var p := g.ImageCovered(j);
      InTime(g, p);
      assert g.ImageAt(p) < |a|;
    }
    if g.ImageSize() > 0 {
      var p := g.ImageCovered(g.ImageSize() - 1);
      InTime(g, p);
      assert g.ImageAt(p) < |a|;
    }
  }

  lemma InTime(g: Geometry, p: Place)
    requires g.Has(p)
    ensures Before(p, Place(7, 0, 0, 0)) && p.i < 7
  {
  }

  /** The other way round, only the passes of the buffer are determined. */
  lemma InterlacedBuffer<T>(g: Geometry, image: seq<T>, a: seq<T>, b: seq<T>)
    requires g.Ok() && Interlaced(g, image, a) && g.starts[7] <= |b|
    requires forall p | g.Has(p) :: g.BufferAt(p) < |a| && g.BufferAt(p) < |b| ==> a[g.BufferAt(p)] == b[g.BufferAt(p)]
    ensures Interlaced(g, image, b)
  {
    hide Geometry.Has, Geometry.ImageAt, Geometry.BufferAt;
    forall p | g.Has(p) && Before(p, Place(7, 0, 0, 0))
      ensures g.ImageAt(p) < |image| && g.BufferAt(p) < |b| && image[g.ImageAt(p)] == b[g.BufferAt(p)]
    {
      InTime(g, p);
      g.BufferAtFits(p);
      g.StartsSorted(p.i + 1, 7);
      assert g.ImageAt(p) < |image|;
    }
  }

  lemma AgreeStart<T>(g: Geometry, image: seq<T>, buffer: seq<T>)
    requires g.Ok()
    ensures Agree(g, image, buffer, Place(0, 0, 0, 0))
  {
  }

  lemma {:induction false} BufferWritten<T>(g: Geometry, image: seq<T>, buffer: seq<T>, p: Place)
    requires g.Ok() && g.Has(p) && Agree(g, image, buffer, p)
    requires g.ImageAt(p) < |image| && g.BufferAt(p) < |buffer|
    ensures Agree(g, image, buffer[g.BufferAt(p) := image[g.ImageAt(p)]], p.(b := p.b + 1))
  {
    hide Geometry.Has, Geometry.ImageAt, Geometry.BufferAt;
    InTime(g, p);
    var now := buffer[g.BufferAt(p) := image[g.ImageAt(p)]];
    forall q | g.Has(q) && Before(q, p.(b := p.b + 1))
      ensures g.ImageAt(q) < |image| && g.BufferAt(q) < |now| && image[g.ImageAt(q)] == now[g.BufferAt(q)]
    {
      InTime(g, q);
      if g.BufferAt(q) == g.BufferAt(p) { g.BufferAtInjective(p, q); }
    }
  }

  lemma {:induction false} ImageWritten<T>(g: Geometry, image: seq<T>, buffer: seq<T>, p: Place)
    requires g.Ok() && g.Has(p) && Agree(g, image, buffer, p)
    requires g.ImageAt(p) < |image| && g.BufferAt(p) < |buffer|
    ensures Agree(g, image[g.ImageAt(p) := buffer[g.BufferAt(p)]], buffer, p.(b := p.b + 1))
  {
    hide Geometry.Has, Geometry.ImageAt, Geometry.BufferAt;
    InTime(g, p);
    var now := image[g.ImageAt(p) := buffer[g.BufferAt(p)]];
    forall q | g.Has(q) && Before(q, p.(b := p.b + 1))
      ensures g.ImageAt(q) < |now| && g.BufferAt(q) < |buffer| && now[g.ImageAt(q)] == buffer[g.BufferAt(q)]
    {
      InTime(g, q);
      if g.ImageAt(q) == g.ImageAt(p) { g.ImageAtInjective(p, q); }
    }
  }

  /** From the end of a pixel, a row, or a pass on to the next one. */
  lemma NextPixel<T>(g: Geometry, image: seq<T>, buffer: seq<T>, i: nat, y: nat, x: nat)
    requires g.Ok() && Agree(g, image, buffer, Place(i, y, x, g.unit))
    ensures Agree(g, image, buffer, Place(i, y, x + 1, 0))
  {
    hide Geometry.ImageAt, Geometry.BufferAt;
    assert forall p | g.Has(p) && Before(p, Place(i, y, x + 1, 0)) :: Before(p, Place(i, y, x, g.unit));
  }

  lemma NextRow<T>(g: Geometry, image: seq<T>, buffer: seq<T>, i: nat, y: nat)
    requires g.Ok() && i < 7 && Agree(g, image, buffer, Place(i, y, PassW(g.w, g.h, i), 0))
    ensures Agree(g, image, buffer, Place(i, y + 1, 0, 0))
  {
    hide Geometry.ImageAt, Geometry.BufferAt, PassW, PassH;
    assert forall p | g.Has(p) && Before(p, Place(i, y + 1, 0, 0)) :: Before(p, Place(i, y, PassW(g.w, g.h, i), 0));
  }

  lemma NextPass<T>(g: Geometry, image: seq<T>, buffer: seq<T>, i: nat)
    requires g.Ok() && i < 7 && Agree(g, image, buffer, Place(i, PassH(g.w, g.h, i), 0, 0))
    ensures Agree(g, image, buffer, Place(i + 1, 0, 0, 0))
  {
    hide Geometry.ImageAt, Geometry.BufferAt, PassW, PassH;
    assert forall p | g.Has(p) && Before(p, Place(i + 1, 0, 0, 0)) :: Before(p, Place(i, PassH(g.w, g.h, i), 0, 0));
  }

  // ---------------------------------------------------------------- Adam7_interlace, Adam7_deinterlace

  /** Where an element stands in both, and that there is room for it. */
  lemma PlaceFits(g: Geometry, p: Place, n: nat, m: nat)
    requires g.Ok() && g.Has(p) && g.ImageSize() <= n && g.starts[7] <= m
    ensures p.i < 7 && g.ImageAt(p) < n && g.BufferAt(p) < m
    ensures p.b == 0 ==>
              forall b | 0 <= b < g.unit ::
                && g.Has(p.(b := b)) && g.ImageAt(p.(b := b)) == g.ImageAt(p) + b
                && g.BufferAt(p.(b := b)) == g.BufferAt(p) + b
  {
    hide PassW, PassH, Cells;
    g.ImageAtFits(p);
    g.BufferAtFits(p);
    g.StartsSorted(p.i + 1, 7);
  }

  /** The indices that the loops compute. */
  lemma Indices(g: Geometry, i: nat, y: nat, x: nat)
    requires g.Ok() && i < 7
    ensures var n := PassW(g.w, g.h, i);
            && g.BufferAt(Place(i, y, x, 0)) == g.starts[i] + (y * n + x) * g.unit
            && g.BufferAt(Place(i, y, x, 0)) == g.starts[i] + (y * (g.unit * n) + x * g.unit)
    ensures g.ImageAt(Place(i, y, x, 0))
            == ((ADAM7_IY[i] + y * ADAM7_DY[i]) * g.w + ADAM7_IX[i] + x * ADAM7_DX[i]) * g.unit
            == (ADAM7_IY[i] + y * ADAM7_DY[i]) * (g.unit * g.w) + (ADAM7_IX[i] + x * ADAM7_DX[i]) * g.unit
  {
    hide PassW, PassH;
    Distribute(y, PassW(g.w, g.h, i), x, g.unit);
    Distribute(ADAM7_IY[i] + y * ADAM7_DY[i], g.w, ADAM7_IX[i] + x * ADAM7_DX[i], g.unit);
  }

  lemma Distribute(a: nat, n: nat, b: nat, unit: nat)
    ensures (a * n + b) * unit == a * (unit * n) + b * unit
  {
    MulSum(a * n, b, unit);
    MulAssoc(a, n, unit);
  }

  function ByteGeometry(w: nat, h: nat, bpp: nat): Geometry {
    Geometry(w, h, bpp / 8, seq(8, i requires 0 <= i < 8 => PassStart(w, h, bpp, i)))
  }

  function BitGeometry(w: nat, h: nat, bpp: nat): Geometry {
    Geometry(w, h, bpp, seq(8, i requires 0 <= i < 8 => 8 * PassStart(w, h, bpp, i)))
  }

  lemma BitGeometryOk(w: nat, h: nat, bpp: nat)
    ensures var g := BitGeometry(w, h, bpp);
            g.Ok() && forall i | 0 <= i <= 7 :: g.starts[i] == 8 * PassStart(w, h, bpp, i)
  {
    hide PassW, PassH, Cells, Pos;
    var g := BitGeometry(w, h, bpp);
    forall i | 0 <= i < 7 ensures g.starts[i] + g.PassSize(i) <= g.starts[i + 1] {
      PassBits(w, h, bpp, i);
    }
  }

  /** The bits of a pass, counted in two ways. */
  lemma PassBits(w: nat, h: nat, bpp: nat, i: nat)
    requires i < 7
    ensures Cells(PassH(w, h, i), PassW(w, h, i), bpp) == Pos(RowBits(w, h, bpp, i), PassH(w, h, i))
  {
    hide PassW, PassH, Pos;
    PosIs(RowBits(w, h, bpp, i), PassH(w, h, i));
    MulAssoc(PassH(w, h, i), PassW(w, h, i), bpp);
  }

  lemma ByteGeometryOk(w: nat, h: nat, bpp: nat)
    requires bpp % 8 == 0
    ensures var g := ByteGeometry(w, h, bpp); g.Ok() && forall i | 0 <= i <= 7 :: g.starts[i] == PassStart(w, h, bpp, i)
  {
    hide PassW, PassH, Cells, Pos;
    var g := ByteGeometry(w, h, bpp);
    forall i | 0 <= i < 7 ensures g.starts[i] + g.PassSize(i) <= g.starts[i + 1] {
      PassBits(w, h, bpp, i);
      EightCells(PassH(w, h, i), PassW(w, h, i), bpp);
    }
  }

  lemma EightCells(rows: nat, columns: nat, bpp: nat)
    requires bpp % 8 == 0
    ensures Cells(rows, columns, bpp) == 8 * Cells(rows, columns, bpp / 8)
  {
    MulAssoc(rows * columns, bpp / 8, 8);
  }

  /** Bits of the image that are still to be written are 0. */
  ghost predicate Blank(g: Geometry, image: Bitstring, upto: Place) {
    forall p | g.Has(p) && !Before(p, upto) && g.ImageAt(p) < |image| :: !image[g.ImageAt(p)]
  }

  lemma BlankStart(g: Geometry, image: Bitstring)
    requires forall j | 0 <= j < |image| :: !image[j]
    ensures Blank(g, image, Place(0, 0, 0, 0))
  {
    hide Geometry.ImageAt;
  }

  lemma BlankWritten(g: Geometry, image: Bitstring, p: Place, bit: bool)
    requires g.Has(p) && p.i < 7 && g.ImageAt(p) < |image| && Blank(g, image, p)
    ensures !image[g.ImageAt(p)]
    ensures Blank(g, image[g.ImageAt(p) := bit], p.(b := p.b + 1))
  {
    hide Geometry.ImageAt, Geometry.Has;
    var now := image[g.ImageAt(p) := bit];
    forall q | g.Has(q) && !Before(q, p.(b := p.b + 1)) && q.i < 7 && g.ImageAt(q) < |now| ensures !now[g.ImageAt(q)] {
      if g.ImageAt(q) == g.ImageAt(p) { g.ImageAtInjective(p, q); }
    }
    BlankIs(g, now, p.(b := p.b + 1));
  }

  lemma BlankIs(g: Geometry, image: Bitstring, upto: Place)
    requires forall q | g.Has(q) && !Before(q, upto) && q.i < 7 && g.ImageAt(q) < |image| :: !image[g.ImageAt(q)]
    ensures Blank(g, image, upto)
  {
  }

  lemma BlankPixel(g: Geometry, image: Bitstring, p: Place)
    requires Blank(g, image, p.(b := g.unit))
    ensures Blank(g, image, p.(x := p.x + 1, b := 0))
  {
    BlankLater(g, image, p.(b := g.unit), p.(x := p.x + 1, b := 0));
  }

  lemma BlankLater(g: Geometry, image: Bitstring, a: Place, b: Place)
    requires Blank(g, image, a) && Before(a, b)
    ensures Blank(g, image, b)
  {
    hide Geometry.ImageAt;
  }

  /** The bits of one pixel, from the image into the buffer */
  method InterlacePixelBits(out: array<byte>, obp: nat, input: array<byte>, ibp: nat, ghost g: Geometry, unit: nat,
                            ghost p: Place)
    requires g.Ok() && unit == g.unit && p.b == 0 && out != input && (unit > 0 ==> g.Has(p)) && p.i < 7
    requires g.ImageSize() <= 8 * input.Length && g.starts[7] <= 8 * out.Length
    requires ibp == g.ImageAt(p) && obp == g.BufferAt(p)
    requires Agree(g, RBits(input[..]), RBits(out[..]), p)
    modifies out
    ensures Agree(g, RBits(input[..]), RBits(out[..]), p.(x := p.x + 1))
  {
    hide Agree, Geometry.Ok, Geometry.Has, Geometry.ImageAt, Geometry.BufferAt, RBits;
    if unit > 0 { PlaceFits(g, p, 8 * input.Length, 8 * out.Length); }
    for b := 0 to unit
      invariant Agree(g, RBits(input[..]), RBits(out[..]), p.(b := b))
    {
      ghost var q := p.(b := b);
      PlaceFits(g, q, 8 * input.Length, 8 * out.Length);
      BufferWritten(g, RBits(input[..]), RBits(out[..]), q);
      var _, _ := CopyBit(out, obp + b, input, ibp + b);
    }
    NextPixel(g, RBits(input[..]), RBits(out[..]), p.i, p.y, p.x);
  }

  /** The bytes of one pixel, from the image into the buffer */
  method InterlacePixelBytes(out: array<byte>, obp: nat, input: array<byte>, ibp: nat, ghost g: Geometry, unit: nat,
                             ghost p: Place)
    requires g.Ok() && unit == g.unit && p.b == 0 && out != input && (unit > 0 ==> g.Has(p)) && p.i < 7
    requires g.ImageSize() <= input.Length && g.starts[7] <= out.Length
    requires ibp == g.ImageAt(p) && obp == g.BufferAt(p)
    requires Agree(g, input[..], out[..], p)
    modifies out
    ensures Agree(g, input[..], out[..], p.(x := p.x + 1))
  {
    hide Agree, Geometry.Ok, Geometry.Has, Geometry.ImageAt, Geometry.BufferAt, RBits;
    if unit > 0 { PlaceFits(g, p, input.Length, out.Length); }
    for b := 0 to unit
      invariant Agree(g, input[..], out[..], p.(b := b))
    {
      ghost var q := p.(b := b);
      PlaceFits(g, q, input.Length, out.Length);
      BufferWritten(g, input[..], out[..], q);
      out[obp + b] := input[ibp + b];
    }
    NextPixel(g, input[..], out[..], p.i, p.y, p.x);
  }

  /** The bits of one pixel, from the buffer into the image, where they are still 0 */
  method DeinterlacePixelBits(out: array<byte>, obp: nat, input: array<byte>, ibp: nat, ghost g: Geometry, unit: nat,
                              ghost p: Place)
    requires g.Ok() && unit == g.unit && p.b == 0 && out != input && (unit > 0 ==> g.Has(p)) && p.i < 7
    requires g.ImageSize() <= 8 * out.Length && g.starts[7] <= 8 * input.Length
    requires ibp == g.BufferAt(p) && obp == g.ImageAt(p)
    requires Agree(g, RBits(out[..]), RBits(input[..]), p) && Blank(g, RBits(out[..]), p)
    modifies out
    ensures Agree(g, RBits(out[..]), RBits(input[..]), p.(x := p.x + 1)) && Blank(g, RBits(out[..]), p.(x := p.x + 1))
  {
    hide Agree, Geometry.Has, Geometry.ImageAt, Geometry.BufferAt, RBits, Blank;
    if unit > 0 { PlaceFits(g, p, 8 * out.Length, 8 * input.Length); }
    for b := 0 to unit
      invariant Agree(g, RBits(out[..]), RBits(input[..]), p.(b := b)) && Blank(g, RBits(out[..]), p.(b := b))
    {
      ghost var q := p.(b := b);
      PlaceFits(g, q, 8 * out.Length, 8 * input.Length);
      ImageWritten(g, RBits(out[..]), RBits(input[..]), q);
      BlankWritten(g, RBits(out[..]), q, RBits(input[..])[g.BufferAt(q)]);
      var bit, _ := ReadBitFromReversedStream(ibp + b, input);
      var _ := SetBitOfReversedStream0(obp + b, out, bit);
    }
    NextPixel(g, RBits(out[..]), RBits(input[..]), p.i, p.y, p.x);
    BlankPixel(g, RBits(out[..]), p);
  }

  /** The bytes of one pixel, from the buffer into the image */
  method DeinterlacePixelBytes(out: array<byte>, obp: nat, input: array<byte>, ibp: nat, ghost g: Geometry, unit: nat,
                               ghost p: Place)
    requires g.Ok() && unit == g.unit && p.b == 0 && out != input && (unit > 0 ==> g.Has(p)) && p.i < 7
    requires g.ImageSize() <= out.Length && g.starts[7] <= input.Length
    requires ibp == g.BufferAt(p) && obp == g.ImageAt(p)
    requires Agree(g, out[..], input[..], p)
    modifies out
    ensures Agree(g, out[..], input[..], p.(x := p.x + 1))
  {
    hide Agree, Geometry.Ok, Geometry.Has, Geometry.ImageAt, Geometry.BufferAt, RBits;
    if unit > 0 { PlaceFits(g, p, out.Length, input.Length); }
    for b := 0 to unit
      invariant Agree(g, out[..], input[..], p.(b := b))
    {
      ghost var q := p.(b := b);
      PlaceFits(g, q, out.Length, input.Length);
      ImageWritten(g, out[..], input[..], q);
      out[obp + b] := input[ibp + b];
    }
    NextPixel(g, out[..], input[..], p.i, p.y, p.x);
  }

  /** Adam7_interlace, for pixels smaller than a byte */
  method InterlaceBits(out: array<byte>, input: array<byte>, w: nat, h: nat, bpp: nat)
    requires bpp > 0 && out != input
    requires BitGeometry(w, h, bpp).ImageSize() <= 8 * input.Length && PassStart(w, h, bpp, 7) <= out.Length
    modifies out
    ensures BitGeometry(w, h, bpp).Ok() && Interlaced(BitGeometry(w, h, bpp), RBits(input[..]), RBits(out[..]))
  {
    hide Agree, Geometry.Ok, Geometry.ImageAt, Geometry.BufferAt, Geometry.ImageSize, RBits, PassW, PassH, PassStart;
    ghost var g := BitGeometry(w, h, bpp);
    BitGeometryOk(w, h, bpp);
    var passw, passh, _, _, passstart := Adam7GetPassValues(w, h, bpp);
    AgreeStart(g, RBits(input[..]), RBits(out[..]));
    for i := 0 to 7
      invariant Agree(g, RBits(input[..]), RBits(out[..]), Place(i, 0, 0, 0))
    {
      var passbits, linebits := bpp * passw[i], bpp * w;
      for y := 0 to passh[i]
        invariant Agree(g, RBits(input[..]), RBits(out[..]), Place(i, y, 0, 0))
      {
        for x := 0 to passw[i]
          invariant Agree(g, RBits(input[..]), RBits(out[..]), Place(i, y, x, 0))
        {
          Indices(g, i, y, x);
          var ibp := (ADAM7_IY[i] + y * ADAM7_DY[i]) * linebits + (ADAM7_IX[i] + x * ADAM7_DX[i]) * bpp;
          var obp := 8 * passstart[i] + (y * passbits + x * bpp);
          InterlacePixelBits(out, obp, input, ibp, g, bpp, Place(i, y, x, 0));
        }
        NextRow(g, RBits(input[..]), RBits(out[..]), i, y);
      }
      NextPass(g, RBits(input[..]), RBits(out[..]), i);
    }
  }

  /** Adam7_interlace, for pixels of whole bytes */
  method InterlaceBytes(out: array<byte>, input: array<byte>, w: nat, h: nat, bpp: nat)
    requires bpp > 0 && bpp % 8 == 0 && out != input
    requires ByteGeometry(w, h, bpp).ImageSize() <= input.Length && PassStart(w, h, bpp, 7) <= out.Length
    modifies out
    ensures ByteGeometry(w, h, bpp).Ok() && Interlaced(ByteGeometry(w, h, bpp), input[..], out[..])
  {
    hide Agree, Geometry.Ok, Geometry.ImageAt, Geometry.BufferAt, Geometry.ImageSize, RBits, PassW, PassH, PassStart;
    ghost var g := ByteGeometry(w, h, bpp);
    ByteGeometryOk(w, h, bpp);
    var passw, passh, _, _, passstart := Adam7GetPassValues(w, h, bpp);
    var bytewidth := bpp / 8;
    AgreeStart(g, input[..], out[..]);
    for i := 0 to 7
      invariant Agree(g, input[..], out[..], Place(i, 0, 0, 0))
    {
      for y := 0 to passh[i]
        invariant Agree(g, input[..], out[..], Place(i, y, 0, 0))
      {
        for x := 0 to passw[i]
          invariant Agree(g, input[..], out[..], Place(i, y, x, 0))
        {
          Indices(g, i, y, x);
          var pixelinstart := ((ADAM7_IY[i] + y * ADAM7_DY[i]) * w + ADAM7_IX[i] + x * ADAM7_DX[i]) * bytewidth;
          var pixeloutstart := passstart[i] + (y * passw[i] + x) * bytewidth;
          InterlacePixelBytes(out, pixeloutstart, input, pixelinstart, g, bytewidth, Place(i, y, x, 0));
        }
        NextRow(g, input[..], out[..], i, y);
      }
      NextPass(g, input[..], out[..], i);
    }
  }

  /** Adam7_deinterlace, for pixels smaller than a byte; the image must be 0 everywhere. */
  method DeinterlaceBits(out: array<byte>, input: array<byte>, w: nat, h: nat, bpp: nat)
    requires bpp > 0 && out != input
    requires BitGeometry(w, h, bpp).ImageSize() <= 8 * out.Length && PassStart(w, h, bpp, 7) <= input.Length
    requires forall j | 0 <= j < 8 * out.Length :: !RBits(out[..])[j]
    modifies out
    ensures BitGeometry(w, h, bpp).Ok() && Interlaced(BitGeometry(w, h, bpp), RBits(out[..]), RBits(input[..]))
  {
    hide Agree, Geometry.Ok, Geometry.ImageAt, Geometry.BufferAt, Geometry.ImageSize, RBits, PassW, PassH, PassStart,
         Blank;
    ghost var g := BitGeometry(w, h, bpp);
    BitGeometryOk(w, h, bpp);
    var passw, passh, _, _, passstart := Adam7GetPassValues(w, h, bpp);
    AgreeStart(g, RBits(out[..]), RBits(input[..]));
    BlankStart(g, RBits(out[..]));
    for i := 0 to 7
      invariant Agree(g, RBits(out[..]), RBits(input[..]), Place(i, 0, 0, 0))
      invariant Blank(g, RBits(out[..]), Place(i, 0, 0, 0))
    {
      var passbits, linebits := bpp * passw[i], bpp * w;
      for y := 0 to passh[i]
        invariant Agree(g, RBits(out[..]), RBits(input[..]), Place(i, y, 0, 0))
        invariant Blank(g, RBits(out[..]), Place(i, y, 0, 0))
      {
        for x := 0 to passw[i]
          invariant Agree(g, RBits(out[..]), RBits(input[..]), Place(i, y, x, 0))
          invariant Blank(g, RBits(out[..]), Place(i, y, x, 0))
        {
          Indices(g, i, y, x);
          var ibp := 8 * passstart[i] + (y * passbits + x * bpp);
          var obp := (ADAM7_IY[i] + y * ADAM7_DY[i]) * linebits + (ADAM7_IX[i] + x * ADAM7_DX[i]) * bpp;
          DeinterlacePixelBits(out, obp, input, ibp, g, bpp, Place(i, y, x, 0));
        }
        NextRow(g, RBits(out[..]), RBits(input[..]), i, y);
        BlankLater(g, RBits(out[..]), Place(i, y, passw[i], 0), Place(i, y + 1, 0, 0));
      }
      NextPass(g, RBits(out[..]), RBits(input[..]), i);
      BlankLater(g, RBits(out[..]), Place(i, passh[i], 0, 0), Place(i + 1, 0, 0, 0));
    }
  }

  /** Adam7_deinterlace, for pixels of whole bytes */
  method DeinterlaceBytes(out: array<byte>, input: array<byte>, w: nat, h: nat, bpp: nat)
    requires bpp > 0 && bpp % 8 == 0 && out != input
    requires ByteGeometry(w, h, bpp).ImageSize() <= out.Length && PassStart(w, h, bpp, 7) <= input.Length
    modifies out
    ensures ByteGeometry(w, h, bpp).Ok() && Interlaced(ByteGeometry(w, h, bpp), out[..], input[..])
  {
    hide Agree, Geometry.Ok, Geometry.ImageAt, Geometry.BufferAt, Geometry.ImageSize, RBits, PassW, PassH, PassStart;
    ghost var g := ByteGeometry(w, h, bpp);
    ByteGeometryOk(w, h, bpp);
    var passw, passh, _, _, passstart := Adam7GetPassValues(w, h, bpp);
    var bytewidth := bpp / 8;
    AgreeStart(g, out[..], input[..]);
    for i := 0 to 7
      invariant Agree(g, out[..], input[..], Place(i, 0, 0, 0))
    {
      for y := 0 to passh[i]
        invariant Agree(g, out[..], input[..], Place(i, y, 0, 0))
      {
        for x := 0 to passw[i]
          invariant Agree(g, out[..], input[..], Place(i, y, x, 0))
        {
          Indices(g, i, y, x);
          var pixelinstart := passstart[i] + (y * passw[i] + x) * bytewidth;
          var pixeloutstart := ((ADAM7_IY[i] + y * ADAM7_DY[i]) * w + ADAM7_IX[i] + x * ADAM7_DX[i]) * bytewidth;
          DeinterlacePixelBytes(out, pixeloutstart, input, pixelinstart, g, bytewidth, Place(i, y, x, 0));
        }
        NextRow(g, out[..], input[..], i, y);
      }
      NextPass(g, out[..], input[..], i);
    }
  }
}
