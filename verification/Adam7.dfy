/** Adam7 interlacing (PNG Second Edition, section 8). */
module Adam7 {
  import opened Bits
  import opened Buffers
  import opened PngBits
  import opened PngFilter

  // ---------------------------------------------------------------- the seven passes

  const ADAM7_IX: seq<nat> := [0, 4, 0, 2, 0, 1, 0]
  const ADAM7_IY: seq<nat> := [0, 0, 4, 0, 2, 0, 1]
  const ADAM7_DX: seq<nat> := [8, 8, 4, 4, 2, 2, 1]
  const ADAM7_DY: seq<nat> := [8, 8, 8, 4, 4, 2, 2]

  /** How many of the columns (or rows) below n are first, first + step, first + 2 * step, ... */
  function Count(n: nat, first: nat, step: nat): (r: nat)
    requires first < step
  {
    if n <= first then 0 else if n <= step then 1 else 1 + Count(n - step, first, step)
  }

  lemma {:induction false} CountIs(n: nat, first: nat, step: nat, k: nat)
    requires first < step
    ensures k < Count(n, first, step) <==> first + k * step < n
  {
    if n <= first {
      MulMono(0, k, step);
    } else if k == 0 {
    } else {
      MulSum(k - 1, 1, step);
      if n <= step {
        MulMono(1, k, step);
      } else {
        CountIs(n - step, first, step, k - 1);
      }
    }
  }

  /** The formula of Adam7_getpassvalues counts them. */
  lemma CountFormula(n: nat, first: nat, step: nat)
    requires first < step
    ensures Count(n, first, step) == (n + step - first - 1) / step
  {
    hide Count;
    var c, m := Count(n, first, step), n + step - first - 1;
    CountIs(n, first, step, c);
    if c > 0 {
      CountIs(n, first, step, c - 1);
      MulSum(c - 1, 1, step);
    }
    Quotient(m, step, c);
  }

  lemma Quotient(m: nat, d: nat, c: nat)
    requires d > 0 && c * d <= m < c * d + d
    ensures m / d == c
  {
    Digit(m / d, m % d, c, m - c * d, d);
  }

  function PassW(w: nat, h: nat, i: nat): nat
    requires i < 7
  {
    if Count(h, ADAM7_IY[i], ADAM7_DY[i]) == 0 then 0 else Count(w, ADAM7_IX[i], ADAM7_DX[i])
  }

  function PassH(w: nat, h: nat, i: nat): nat
    requires i < 7
  {
    if Count(w, ADAM7_IX[i], ADAM7_DX[i]) == 0 then 0 else Count(h, ADAM7_IY[i], ADAM7_DY[i])
  }

  /** The pass that pixel (x, y) belongs to, from the pattern of eight by eight pixels. */
  function PassOf(x: nat, y: nat): (i: nat)
    ensures i < 7
  {
    Pattern(x % 8, y % 8)
  }

  function Pattern(a: nat, b: nat): (i: nat)
    ensures i < 7
  {
    if b in {1, 3, 5, 7} then 6
    else if a in {1, 3, 5, 7} then 5
    else if b in {2, 6} then 4
    else if a in {2, 6} then 3
    else if b == 4 then 2
    else if a == 4 then 1
    else 0
  }

  /** A pixel of pass i lies in the image, and in no other pass. */
  lemma PassPixel(w: nat, h: nat, i: nat, x: nat, y: nat)
    requires i < 7 && x < PassW(w, h, i) && y < PassH(w, h, i)
    ensures ADAM7_IX[i] + x * ADAM7_DX[i] < w && ADAM7_IY[i] + y * ADAM7_DY[i] < h
    ensures PassOf(ADAM7_IX[i] + x * ADAM7_DX[i], ADAM7_IY[i] + y * ADAM7_DY[i]) == i
  {
    hide Count, PassOf;
    CountIs(w, ADAM7_IX[i], ADAM7_DX[i], x);
    CountIs(h, ADAM7_IY[i], ADAM7_DY[i], y);
    PassOfPlace(i, x, y);
  }

  lemma PassOfPlace(i: nat, x: nat, y: nat)
    requires i < 7
    ensures PassOf(ADAM7_IX[i] + x * ADAM7_DX[i], ADAM7_IY[i] + y * ADAM7_DY[i]) == i
  {
    hide PassOf;
    Places(x, y);
  }

  lemma Places(x: nat, y: nat)
    ensures PassOf(8 * x, 8 * y) == 0 && PassOf(4 + 8 * x, 8 * y) == 1 && PassOf(4 * x, 4 + 8 * y) == 2
    ensures PassOf(2 + 4 * x, 4 * y) == 3 && PassOf(2 * x, 2 + 4 * y) == 4
    ensures PassOf(1 + 2 * x, 2 * y) == 5 && PassOf(x, 1 + 2 * y) == 6
  {
    hide Pattern;
    Remainders(x);
    Remainders(y);
    PatternIs();
  }

  /** The remainders of the columns (or rows) that a pass takes. */
  lemma Remainders(x: nat)
    ensures (8 * x) % 8 == 0 && (4 + 8 * x) % 8 == 4
    ensures (4 * x) % 8 == 0 || (4 * x) % 8 == 4
    ensures (2 + 4 * x) % 8 == 2 || (2 + 4 * x) % 8 == 6
    ensures (2 * x) % 8 == 0 || (2 * x) % 8 == 2 || (2 * x) % 8 == 4 || (2 * x) % 8 == 6
    ensures (1 + 2 * x) % 8 == 1 || (1 + 2 * x) % 8 == 3 || (1 + 2 * x) % 8 == 5 || (1 + 2 * x) % 8 == 7
  {
    Remainder(8 * x, x, 0);
    Remainder(4 + 8 * x, x, 4);
    Remainder(4 * x, x / 2, 4 * (x % 2));
    Remainder(2 + 4 * x, x / 2, 2 + 4 * (x % 2));
    Remainder(2 * x, x / 4, 2 * (x % 4));
    Remainder(1 + 2 * x, x / 4, 1 + 2 * (x % 4));
  }

  lemma Remainder(v: nat, q: nat, r: nat)
    requires v == 8 * q + r && r < 8
    ensures v % 8 == r
  {
  }

  lemma PatternIs()
    ensures Pattern(0, 0) == 0 && Pattern(4, 0) == 1
    ensures forall a | a == 0 || a == 4 :: Pattern(a, 4) == 2
    ensures forall a, b | (a == 2 || a == 6) && (b == 0 || b == 4) :: Pattern(a, b) == 3
    ensures forall a, b | (a == 0 || a == 2 || a == 4 || a == 6) && (b == 2 || b == 6) :: Pattern(a, b) == 4
    ensures forall a, b | (a == 1 || a == 3 || a == 5 || a == 7) && (b == 0 || b == 2 || b == 4 || b == 6) ::
              Pattern(a, b) == 5
    ensures forall a: nat, b | b == 1 || b == 3 || b == 5 || b == 7 :: Pattern(a, b) == 6
  {
  }

  /** The pattern of the standard, which repeats every eight pixels in both directions. */
  lemma StandardPattern(x: nat, y: nat)
    ensures 1 + PassOf(x, y) == match y % 8
                                case 0 => [1, 6, 4, 6, 2, 6, 4, 6][x % 8]
                                case 4 => [3, 6, 4, 6, 3, 6, 4, 6][x % 8]
                                case 2 => [5, 6, 5, 6, 5, 6, 5, 6][x % 8]
                                case 6 => [5, 6, 5, 6, 5, 6, 5, 6][x % 8]
                                case _ => 7
  {
  }

  /** Every pixel is in the pass PassOf tells. */
  lemma PixelCovered(w: nat, h: nat, x: nat, y: nat)
    requires x < w && y < h
    ensures var i := PassOf(x, y);
            && ADAM7_IX[i] <= x && ADAM7_IY[i] <= y
            && (x - ADAM7_IX[i]) / ADAM7_DX[i] < PassW(w, h, i) && (y - ADAM7_IY[i]) / ADAM7_DY[i] < PassH(w, h, i)
            && ADAM7_IX[i] + (x - ADAM7_IX[i]) / ADAM7_DX[i] * ADAM7_DX[i] == x
            && ADAM7_IY[i] + (y - ADAM7_IY[i]) / ADAM7_DY[i] * ADAM7_DY[i] == y
  {
    hide Count, PassOf;
    var i := PassOf(x, y);
    PassAligned(x, y);
    Exactly(x - ADAM7_IX[i], ADAM7_DX[i]);
    Exactly(y - ADAM7_IY[i], ADAM7_DY[i]);
    CountIs(w, ADAM7_IX[i], ADAM7_DX[i], (x - ADAM7_IX[i]) / ADAM7_DX[i]);
    CountIs(h, ADAM7_IY[i], ADAM7_DY[i], (y - ADAM7_IY[i]) / ADAM7_DY[i]);
  }

  lemma PassAligned(x: nat, y: nat)
    ensures var i := PassOf(x, y);
            && ADAM7_IX[i] <= x && (x - ADAM7_IX[i]) % ADAM7_DX[i] == 0
            && ADAM7_IY[i] <= y && (y - ADAM7_IY[i]) % ADAM7_DY[i] == 0
  {
    Steps(x);
    Steps(y);
  }

  lemma Steps(x: nat)
    ensures x >= x % 8 && (x % 8 == 0 || x % 8 == 4 ==> x % 4 == 0)
    ensures x % 8 == 4 ==> (x - 4) % 8 == 0 && (x - 4) % 4 == 0
    ensures x % 8 == 2 || x % 8 == 6 ==> (x - 2) % 4 == 0
    ensures x % 8 == 0 || x % 8 == 2 || x % 8 == 4 || x % 8 == 6 ==> x % 2 == 0
    ensures x % 8 == 1 || x % 8 == 3 || x % 8 == 5 || x % 8 == 7 ==> (x - 1) % 2 == 0
  {
    var q, a := x / 8, x % 8;
    if a == 0 {
      Times(x, 4 * q, 2 * q);
    } else if a == 4 {
      Times(x, 4 * q + 2, 2 * q + 1);
      Times(x - 4, 4 * q, 2 * q);
      Remainder(x - 4, q, 0);
    } else if a == 2 {
      Times(x - 2, 4 * q, 2 * q);
      Even(x, 4 * q + 1);
    } else if a == 6 {
      Times(x - 2, 4 * q + 2, 2 * q + 1);
      Even(x, 4 * q + 3);
    } else {
      Even(x - 1, 4 * q + (a - 1) / 2);
    }
  }

  lemma Times(v: nat, half: nat, quarter: nat)
    requires v == 2 * half == 4 * quarter
    ensures v % 2 == 0 && v % 4 == 0
  {
    Even(v, half);
    Quarter(v, quarter, v % 4);
  }

  lemma Quarter(v: nat, q: nat, r: nat)
    requires v == 4 * q && r == v % 4
    ensures r == 0
  {
    assert v - r == 4 * (v / 4);
  }

  lemma Even(v: nat, half: nat)
    requires v == 2 * half
    ensures v % 2 == 0
  {
  }

  lemma Exactly(a: nat, d: nat)
    requires d > 0 && a % d == 0
    ensures a / d * d == a
  {
  }

  /** The passes together hold as many pixels as the image. */
  lemma PassSizes(w: nat, h: nat)
    ensures PassW(w, h, 0) * PassH(w, h, 0) + PassW(w, h, 1) * PassH(w, h, 1) + PassW(w, h, 2) * PassH(w, h, 2)
            + PassW(w, h, 3) * PassH(w, h, 3) + PassW(w, h, 4) * PassH(w, h, 4) + PassW(w, h, 5) * PassH(w, h, 5)
            + PassW(w, h, 6) * PassH(w, h, 6) == w * h
  {
    hide Count, PassW, PassH;
    Counts(w);
    Counts(h);
    var a8, a4, a2 := Count(w, 0, 8), Count(w, 0, 4), Count(w, 0, 2);
    var b8, b4, b2 := Count(h, 0, 8), Count(h, 0, 4), Count(h, 0, 2);
    PassSize(w, h, 0, a8, b8);
    PassSize(w, h, 1, a4 - a8, b8);
    PassSize(w, h, 2, a4, b4 - b8);
    PassSize(w, h, 3, a2 - a4, b4);
    PassSize(w, h, 4, a2, b2 - b4);
    PassSize(w, h, 5, w - a2, b2);
    PassSize(w, h, 6, w, h - b2);
    Telescope(w, a2, a4, a8, h, b2, b4, b8);
  }

  lemma PassSize(w: nat, h: nat, i: nat, a: nat, b: nat)
    requires i < 7 && a == Count(w, ADAM7_IX[i], ADAM7_DX[i]) && b == Count(h, ADAM7_IY[i], ADAM7_DY[i])
    ensures PassW(w, h, i) * PassH(w, h, i) == a * b
  {
    hide Count;
  }

  /** The columns that one pass adds to those of the passes before. */
  lemma {:induction false} Counts(n: nat)
    ensures Count(n, 4, 8) == Count(n, 0, 4) - Count(n, 0, 8)
    ensures Count(n, 2, 4) == Count(n, 0, 2) - Count(n, 0, 4)
    ensures Count(n, 1, 2) == n - Count(n, 0, 2) && Count(n, 0, 1) == n
  {
    Doubled(n, 4);
    Doubled(n, 2);
    Doubled(n, 1);
    AllOfThem(n);
  }

  /** Every other one of the multiples of d. */
  lemma {:induction false} Doubled(n: nat, d: nat)
    requires d > 0
    ensures Count(n, 0, d) == Count(n, 0, 2 * d) + Count(n, d, 2 * d)
  {
    if n > 2 * d {
      Doubled(n - 2 * d, d);
      assert Count(n, 0, d) == 1 + Count(n - d, 0, d) == 2 + Count(n - d - d, 0, d);
    }
  }

  lemma {:induction false} AllOfThem(n: nat)
    ensures Count(n, 0, 1) == n
  {
    if n > 1 { AllOfThem(n - 1); }
  }

  lemma Telescope(w: int, a2: int, a4: int, a8: int, h: int, b2: int, b4: int, b8: int)
    ensures a8 * b8 + (a4 - a8) * b8 + a4 * (b4 - b8) + (a2 - a4) * b4 + a2 * (b2 - b4) + (w - a2) * b2 + w * (h - b2)
            == w * h
  {
    MulSum(a8, a4 - a8, b8);
    MulSum(b8, b4 - b8, a4);
    MulSum(a4, a2 - a4, b4);
    MulSum(b4, b2 - b4, a2);
    MulSum(a2, w - a2, b2);
    MulSum(b2, h - b2, w);
  }

  // ---------------------------------------------------------------- where the passes start

  /** Bits of a row of pass i, and bytes of one with padding. */
  function RowBits(w: nat, h: nat, bpp: nat, i: nat): nat
    requires i < 7
  {
    PassW(w, h, i) * bpp
  }

  function RowBytes(w: nat, h: nat, bpp: nat, i: nat): nat
    requires i < 7
  {
    LineBytes(PassW(w, h, i), bpp)
  }

  /** Pass i with padded rows that have a filter type in front. */
  function FilterStart(w: nat, h: nat, bpp: nat, i: nat): nat
    requires i <= 7
  {
    if i == 0 then 0 else FilterStart(w, h, bpp, i - 1) + Pos(1 + RowBytes(w, h, bpp, i - 1), PassH(w, h, i - 1))
  }

  /** Pass i with padded rows. */
  function PaddedStart(w: nat, h: nat, bpp: nat, i: nat): nat
    requires i <= 7
  {
    if i == 0 then 0 else PaddedStart(w, h, bpp, i - 1) + Pos(RowBytes(w, h, bpp, i - 1), PassH(w, h, i - 1))
  }

  /** Pass i with rows that follow each other without padding. */
  function PassStart(w: nat, h: nat, bpp: nat, i: nat): nat
    requires i <= 7
  {
    if i == 0 then 0 else PassStart(w, h, bpp, i - 1) + (Pos(RowBits(w, h, bpp, i - 1), PassH(w, h, i - 1)) + 7) / 8
  }

  lemma {:induction false} Rounded(n: nat, k: nat)
    ensures Pos(n, k) <= 8 * Pos((n + 7) / 8, k)
    ensures n % 8 == 0 ==> Pos(n, k) == 8 * Pos((n + 7) / 8, k)
  {
    if k > 0 { Rounded(n, k - 1); }
  }

  /**
   * Every pass moves to the front, or stays, in each step of the decoder, and ends before the next pass
   * starts: so no step on one pass touches what another one still needs.
   */
  lemma {:induction false} StartsOrdered(w: nat, h: nat, bpp: nat, i: nat)
    requires i <= 7
    ensures PassStart(w, h, bpp, i) <= PaddedStart(w, h, bpp, i) <= FilterStart(w, h, bpp, i)
    ensures bpp % 8 == 0 ==> PassStart(w, h, bpp, i) == PaddedStart(w, h, bpp, i)
  {
    hide PassW, PassH;
    if i > 0 {
      StartsOrdered(w, h, bpp, i - 1);
      Rounded(RowBits(w, h, bpp, i - 1), PassH(w, h, i - 1));
      RowBehind(RowBytes(w, h, bpp, i - 1), PassH(w, h, i - 1));
      if bpp % 8 == 0 { WholeBytes(PassW(w, h, i - 1), bpp); }
    }
  }

  lemma WholeBytes(n: nat, bpp: nat)
    requires bpp % 8 == 0
    ensures (n * bpp) % 8 == 0 && n * bpp == 8 * (n * (bpp / 8))
  {
    MulAssoc(n, 8, bpp / 8);
    assert n * bpp == 8 * (n * (bpp / 8));
  }

  lemma {:induction false} StartsMono(w: nat, h: nat, bpp: nat, i: nat, j: nat)
    requires i <= j <= 7
    ensures FilterStart(w, h, bpp, i) <= FilterStart(w, h, bpp, j)
    ensures PaddedStart(w, h, bpp, i) <= PaddedStart(w, h, bpp, j)
    ensures PassStart(w, h, bpp, i) <= PassStart(w, h, bpp, j)
  {
    if i < j { StartsMono(w, h, bpp, i, j - 1); }
  }

  /** The first loop of Adam7_getpassvalues. */
  method GetPassSizes(w: nat, h: nat) returns (passw: seq<nat>, passh: seq<nat>)
    ensures |passw| == |passh| == 7 && forall i | 0 <= i < 7 :: passw[i] == PassW(w, h, i) && passh[i] == PassH(w, h, i)
  {
    hide Count, PassW, PassH;
    passw, passh := [], [];
    for i := 0 to 7
      invariant |passw| == |passh| == i
      invariant forall k | 0 <= k < i :: passw[k] == PassW(w, h, k) && passh[k] == PassH(w, h, k)
    {
      var a := (w + ADAM7_DX[i] - ADAM7_IX[i] - 1) / ADAM7_DX[i];
      var b := (h + ADAM7_DY[i] - ADAM7_IY[i] - 1) / ADAM7_DY[i];
      PassSizeIs(w, h, i, a, b);
      if a == 0 { b := 0; }
      if b == 0 { a := 0; }
      passw, passh := passw + [a], passh + [b];
    }
  }

  lemma StartsAtZero(w: nat, h: nat, bpp: nat)
    ensures FilterStart(w, h, bpp, 0) == PaddedStart(w, h, bpp, 0) == PassStart(w, h, bpp, 0) == 0
  {
  }

  /** Adam7_getpassvalues */
  method Adam7GetPassValues(w: nat, h: nat, bpp: nat)
    returns (passw: seq<nat>, passh: seq<nat>, filter_passstart: seq<nat>, padded_passstart: seq<nat>,
             passstart: seq<nat>)
    ensures |passw| == |passh| == 7 && forall i | 0 <= i < 7 :: passw[i] == PassW(w, h, i) && passh[i] == PassH(w, h, i)
    ensures |filter_passstart| == 8 && forall i | 0 <= i <= 7 :: filter_passstart[i] == FilterStart(w, h, bpp, i)
    ensures |padded_passstart| == 8 && forall i | 0 <= i <= 7 :: padded_passstart[i] == PaddedStart(w, h, bpp, i)
    ensures |passstart| == 8 && forall i | 0 <= i <= 7 :: passstart[i] == PassStart(w, h, bpp, i)
  {
    hide Count, Pos, PassW, PassH, FilterStart, PaddedStart, PassStart;
    passw, passh := GetPassSizes(w, h);
    StartsAtZero(w, h, bpp);
    filter_passstart, padded_passstart, passstart := [0], [0], [0];
    for i := 0 to 7
      invariant |filter_passstart| == |padded_passstart| == |passstart| == i + 1
      invariant forall k | 0 <= k <= i :: filter_passstart[k] == FilterStart(w, h, bpp, k)
      invariant forall k | 0 <= k <= i :: padded_passstart[k] == PaddedStart(w, h, bpp, k)
      invariant forall k | 0 <= k <= i :: passstart[k] == PassStart(w, h, bpp, k)
    {
      var a, b := passw[i], passh[i];
      Starts(w, h, bpp, i, a, b);
      filter_passstart :=
        filter_passstart + [filter_passstart[i] + if a != 0 && b != 0 then b * (1 + (a * bpp + 7) / 8) else 0];
      padded_passstart := padded_passstart + [padded_passstart[i] + b * ((a * bpp + 7) / 8)];
      passstart := passstart + [passstart[i] + (b * a * bpp + 7) / 8];
    }
  }

  lemma PassSizeIs(w: nat, h: nat, i: nat, a: int, b: int)
    requires i < 7 && a == (w + ADAM7_DX[i] - ADAM7_IX[i] - 1) / ADAM7_DX[i]
    requires b == (h + ADAM7_DY[i] - ADAM7_IY[i] - 1) / ADAM7_DY[i]
    ensures a >= 0 && PassW(w, h, i) == (if b == 0 then 0 else a)
    ensures b >= 0 && PassH(w, h, i) == (if a == 0 then 0 else b)
  {
    hide Count;
    CountFormula(w, ADAM7_IX[i], ADAM7_DX[i]);
    CountFormula(h, ADAM7_IY[i], ADAM7_DY[i]);
  }

  lemma Starts(w: nat, h: nat, bpp: nat, i: nat, a: nat, b: nat)
    requires i < 7 && a == PassW(w, h, i) && b == PassH(w, h, i)
    ensures FilterStart(w, h, bpp, i + 1)
            == FilterStart(w, h, bpp, i) + if a != 0 && b != 0 then b * (1 + (a * bpp + 7) / 8) else 0
    ensures PaddedStart(w, h, bpp, i + 1) == PaddedStart(w, h, bpp, i) + b * ((a * bpp + 7) / 8)
    ensures PassStart(w, h, bpp, i + 1) == PassStart(w, h, bpp, i) + (b * a * bpp + 7) / 8
  {
    hide Pos, Count, PassW, PassH;
    PassEmpty(w, h, i);
    var lb := RowBytes(w, h, bpp, i);
    assert lb == (a * bpp + 7) / 8;
    ProductIs(1 + lb, b);
    ProductIs(lb, b);
    ProductIs(a * bpp, b);
    MulAssoc(b, a, bpp);
  }

  lemma ProductIs(pitch: nat, n: nat)
    ensures Pos(pitch, n) == n * pitch && Pos(pitch, 0) == 0
  {
    PosIs(pitch, n);
  }

  lemma PassEmpty(w: nat, h: nat, i: nat)
    requires i < 7
    ensures PassW(w, h, i) == 0 <==> PassH(w, h, i) == 0
  {
    hide Count;
  }
}
