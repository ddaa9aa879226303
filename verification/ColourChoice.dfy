/** The choice of a colour type for an image of 8-bit RGB pixels, and the conversion to it and back. */
module ColourChoice {
  import opened Bits
  import opened Buffers
  import opened PngBits
  import opened BitGroups
  import opened ColorTree

  datatype ColorType = LCT_GREY | LCT_RGB | LCT_PALETTE
  datatype Mode = Mode(colortype: ColorType, bitdepth: nat, palette: seq<Color>)
  datatype AutoConvert = LAC_AUTO | LAC_AUTO_NO_NIBBLES | LAC_AUTO_NO_PALETTE | LAC_AUTO_NO_NIBBLES_NO_PALETTE

  // ---------------------------------------------------------------- pixels

  function PixelAt(data: seq<byte>, i: nat): Color
    requires 3 * i + 3 <= |data|
  {
    Color(data[3 * i], data[3 * i + 1], data[3 * i + 2], 255)
  }

  function Pixels(data: seq<byte>, n: nat): (px: seq<Color>)
    requires 3 * n <= |data|
    ensures |px| == n && forall i | 0 <= i < n :: px[i] == PixelAt(data, i)
  {
    seq(n, i requires 0 <= i < n => PixelAt(data, i))
  }

  predicate Grey(c: Color) {
    c.r == c.g == c.b
  }

  /** The byte is one of the values that the given number of bits can stand for. */
  predicate Exact(v: byte, bits: nat) {
    (bits == 1 && v % 255 == 0) || (bits == 2 && v % 85 == 0) || (bits == 4 && v % 17 == 0) || bits == 8
  }

  /** getValueRequiredBits: the least number of bits that will do */
  function GetValueRequiredBits(value: byte): (bits: nat)
    ensures (Nibble(bits) || bits == 8) && forall b | Nibble(b) || b == 8 :: Exact(value, b) <==> bits <= b
  {
    if value == 0 || value == 255 then 1
    else if value % 17 == 0 then (if value % 85 == 0 then 2 else 4)
    else 8
  }

  /** The last of the first n palette entries that is this colour, or -1. */
  function LastIndex(palette: seq<Color>, n: nat, c: Color): (i: int)
    requires n <= |palette|
    ensures -1 <= i < n && (i >= 0 ==> palette[i] == c)
    ensures i == -1 <==> c !in palette[..n]
  {
    if n == 0 then -1
    else
      assert palette[..n] == palette[..n - 1] + [palette[n - 1]];
      if palette[n - 1] == c then n - 1 else LastIndex(palette, n - 1, c)
  }

  lemma {:induction false} LastIndexPrefix(a: seq<Color>, b: seq<Color>, n: nat, c: Color)
    requires n <= |a|
    ensures LastIndex(a + b, n, c) == LastIndex(a, n, c)
  {
    if n > 0 { LastIndexPrefix(a, b, n - 1, c); }
  }

  // ---------------------------------------------------------------- get_color_profile

  /** The colours of the first i pixels, each once, in the order in which they come. */
  function Distinct(px: seq<Color>, i: nat): (s: seq<Color>)
    requires i <= |px|
  {
    if i == 0 then []
    else
      var front := Distinct(px, i - 1);
      if px[i - 1] in front then front else front + [px[i - 1]]
  }

  lemma {:induction false} DistinctHolds(px: seq<Color>, i: nat)
    requires i <= |px|
    ensures forall c :: c in Distinct(px, i) <==> c in px[..i]
    ensures forall a, b | 0 <= a < b < |Distinct(px, i)| :: Distinct(px, i)[a] != Distinct(px, i)[b]
  {
    if i > 0 {
      DistinctHolds(px, i - 1);
      assert px[..i] == px[..i - 1] + [px[i - 1]];
    }
  }

  lemma {:induction false} DistinctGrows(px: seq<Color>, i: nat, n: nat)
    requires i <= n <= |px|
    ensures |Distinct(px, i)| <= |Distinct(px, n)|
  {
    if i < n { DistinctGrows(px, i, n - 1); }
  }

  /** The red part of each of the first i pixels is one of the values that b bits can stand for. */
  ghost predicate AllExact(px: seq<Color>, i: nat, b: nat)
    requires i <= |px|
  {
    forall k | 0 <= k < i :: Exact(px[k].r, b)
  }

  /** What the first i pixels say about greyscale. */
  ghost predicate Greys(colored: bool, greybits: nat, px: seq<Color>, i: nat)
    requires i <= |px|
  {
    && (colored <==> exists k :: 0 <= k < i && !Grey(px[k]))
    && (Nibble(greybits) || greybits == 8)
    && (!colored ==> forall b | Nibble(b) || b == 8 :: AllExact(px, i, b) <==> greybits <= b)
  }

  lemma GreysNext(colored: bool, greybits: nat, colored': bool, greybits': nat, px: seq<Color>, i: nat)
    requires i < |px| && Greys(colored, greybits, px, i)
    requires colored' == (colored || !Grey(px[i]))
    requires var bits := GetValueRequiredBits(px[i].r);
             greybits' == if colored' || bits <= greybits then greybits else bits
    ensures Greys(colored', greybits', px, i + 1)
  {
    hide GetValueRequiredBits, Grey, Exact, Nibble;
    var bits := GetValueRequiredBits(px[i].r);
    if colored' {
      if colored {
        var k :| 0 <= k < i && !Grey(px[k]);
        assert 0 <= k < i + 1;
      } else {
        assert !Grey(px[i]);
      }
    } else {
      forall b | Nibble(b) || b == 8 ensures AllExact(px, i + 1, b) <==> greybits' <= b {
        assert AllExact(px, i + 1, b) <==> AllExact(px, i, b) && Exact(px[i].r, b);
      }
    }
  }

  lemma GreysEnd(greybits: nat, px: seq<Color>, i: nat)
    requires i <= |px| && Greys(true, greybits, px, i)
    ensures Greys(true, greybits, px, |px|)
  {
  }

  /** A new colour at the end of the palette. */
  lemma IndexAdded(palette: seq<Color>, c: Color, d: Color)
    ensures LastIndex(palette + [c], |palette + [c]|, d) ==
            if d == c then |palette| else LastIndex(palette, |palette|, d)
  {
    LastIndexPrefix(palette, [c], |palette|, d);
    assert (palette + [c])[|palette|] == c;
  }

  lemma IndicesAdded(palette: seq<Color>, c: Color)
    ensures forall d ::
              LastIndex(palette + [c], |palette + [c]|, d) ==
              if d == c then |palette| else LastIndex(palette, |palette|, d)
  {
    hide LastIndex;
    forall d
      ensures LastIndex(palette + [c], |palette + [c]|, d) ==
              if d == c then |palette| else LastIndex(palette, |palette|, d)
    {
      IndexAdded(palette, c, d);
    }
  }

  datatype Profile = Profile(colored: bool, numcolors: nat, palette: seq<Color>, greybits: nat)

  /**
   * get_color_profile, for 8-bit RGB. The loop may stop early, but only when the image is coloured and
   * has too many colours for a palette.
   */
  method GetColorProfile(input: array<byte>, numpixels: nat) returns (p: Profile)
    requires 3 * numpixels <= input.Length
    ensures var px := Pixels(input[..], numpixels);
            && Greys(p.colored, p.greybits, px, numpixels)
            && (p.numcolors <= 256 ==> |p.palette| == p.numcolors && p.palette == Distinct(px, numpixels))
            && (p.numcolors > 256 ==> |Distinct(px, numpixels)| > 256)
  {
    hide Greys, Distinct, ColorTree.Valid, ColorTree.Index, Path, GetValueRequiredBits, LastIndex, Pixels, Exact;
    ghost var data := input[..];
    ghost var px := Pixels(data, numpixels);
    var tree := new ColorTree();
    var colored, colored_done := false, false;
    var palette: seq<Color>, numcolors: nat, numcolors_done := [], 0, false;
    var greybits: nat, greybits_done := 1, false;
    NothingYet(px);
    for i := 0 to numpixels
      invariant input[..] == data
      invariant fresh(tree) && tree.Valid() && forall w | w in tree.nodes :: fresh(tree.nodes[w])
      invariant Greys(colored, greybits, px, i) && colored_done == colored
      invariant greybits_done <==> colored || greybits >= 8
      invariant numcolors <= 257 && (numcolors_done <==> numcolors == 257)
      invariant if numcolors_done then |Distinct(px, i)| > 256 else |palette| == numcolors && palette == Distinct(px, i)
      invariant !numcolors_done ==> forall c :: tree.Lookup(c) == LastIndex(palette, |palette|, c)
    {
      var c := Color(input[3 * i], input[3 * i + 1], input[3 * i + 2], 255);
      assert c == px[i];
      ghost var colored0, greybits0 := colored, greybits;
      if !colored_done && (c.r != c.g || c.r != c.b) {
        colored, colored_done, greybits_done := true, true, true;
      }
      if !greybits_done {
        var bits := GetValueRequiredBits(c.r);
        if bits > greybits { greybits := bits; }
        if greybits >= 8 { greybits_done := true; }
      }
      GreysNext(colored0, greybits0, colored, greybits, px, i);
      DistinctNext(px, i);
      if !numcolors_done {
        InPalette(palette, c);
        var index := tree.Get(c);
        if !(index >= 0) {
          tree.Add(c, numcolors);
          IndicesAdded(palette, c);
          if numcolors < 256 { palette := palette + [c]; }
          numcolors := numcolors + 1;
          if numcolors >= 257 { numcolors_done := true; }
        }
      }
      if numcolors_done && colored_done && greybits_done {
        GreysEnd(greybits, px, i + 1);
        DistinctGrows(px, i + 1, numpixels);
        break;
      }
    }
    p := Profile(colored, numcolors, palette, greybits);
  }

  lemma NothingYet(px: seq<Color>)
    ensures Greys(false, 1, px, 0) && Distinct(px, 0) == []
    ensures forall c :: LastIndex([], 0, c) == -1
  {
  }

  lemma DistinctNext(px: seq<Color>, i: nat)
    requires i < |px|
    ensures Distinct(px, i + 1) == Distinct(px, i) + if px[i] in Distinct(px, i) then [] else [px[i]]
  {
  }

  lemma InPalette(palette: seq<Color>, c: Color)
    ensures LastIndex(palette, |palette|, c) >= 0 <==> c in palette
  {
    assert palette[..|palette|] == palette;
  }

  // ---------------------------------------------------------------- lodepng_auto_choose_color

  /** The mode can hold all pixels exactly. */
  ghost predicate Lossless(mode: Mode, px: seq<Color>) {
    && (Nibble(mode.bitdepth) || mode.bitdepth == 8)
    && match mode.colortype
       case LCT_RGB => mode.bitdepth == 8
       case LCT_GREY => forall i | 0 <= i < |px| :: Grey(px[i]) && Exact(px[i].r, mode.bitdepth)
       case LCT_PALETTE => |mode.palette| <= Pow2(mode.bitdepth) && forall i | 0 <= i < |px| :: px[i] in mode.palette
  }

  /** The image has few enough colours for a palette, and enough pixels to make up for it. */
  predicate PaletteOk(px: seq<Color>, no_palette: bool) {
    !no_palette && |Distinct(px, |px|)| <= 256 && 2 * |Distinct(px, |px|)| < |px|
  }

  /** All pixels are grey and exact in b bits. */
  ghost predicate GreyIn(px: seq<Color>, b: nat) {
    (forall i | 0 <= i < |px| :: Grey(px[i])) && AllExact(px, |px|, b)
  }

  /** b bits number all colours. */
  ghost predicate PaletteIn(px: seq<Color>, b: nat) {
    |Distinct(px, |px|)| <= Pow2(b)
  }

  predicate Depth(b: nat) {
    Nibble(b) || b == 8
  }

  /** A palette needs fewer bits for a pixel than greyscale would, which an image with a colour in it cannot use. */
  ghost predicate PaletteShorter(px: seq<Color>) {
    exists b :: Depth(b) && PaletteIn(px, b) && !GreyIn(px, b)
  }

  /** The mode for these pixels: colour type, number of bits and palette. */
  ghost predicate Chosen(mode: Mode, px: seq<Color>, no_nibbles: bool, no_palette: bool) {
    && Depth(mode.bitdepth) && (no_nibbles ==> mode.bitdepth == 8)
    && match mode.colortype
       case LCT_PALETTE =>
         && PaletteOk(px, no_palette) && PaletteShorter(px) && mode.palette == Distinct(px, |px|)
         && PaletteIn(px, mode.bitdepth)
         && (!no_nibbles ==> forall b | Depth(b) && PaletteIn(px, b) :: mode.bitdepth <= b)
       case LCT_GREY =>
         && !(PaletteOk(px, no_palette) && PaletteShorter(px)) && mode.palette == [] && GreyIn(px, mode.bitdepth)
         && (!no_nibbles ==> forall b | Depth(b) && GreyIn(px, b) :: mode.bitdepth <= b)
       case LCT_RGB =>
         && !PaletteOk(px, no_palette) && !GreyIn(px, 8) && mode.palette == [] && mode.bitdepth == 8
  }

  /** There is only one such mode. */
  lemma OneChoice(a: Mode, b: Mode, px: seq<Color>, no_nibbles: bool, no_palette: bool)
    requires Chosen(a, px, no_nibbles, no_palette) && Chosen(b, px, no_nibbles, no_palette)
    ensures a == b
  {
    hide PaletteOk, PaletteIn, Distinct;
    assert AllExact(px, |px|, 8);
  }

  /** ... and it can hold all pixels exactly. */
  lemma ChosenLossless(mode: Mode, px: seq<Color>, no_nibbles: bool, no_palette: bool)
    requires Chosen(mode, px, no_nibbles, no_palette)
    ensures Lossless(mode, px)
  {
    hide Distinct, PaletteOk, Pow2;
    DistinctHolds(px, |px|);
    assert px[..|px|] == px;
  }

  /** lodepng_auto_choose_color for 8-bit RGB, for all settings but LAC_NO and LAC_ALPHA */
  method AutoChooseColor(image: array<byte>, w: nat, h: nat, auto_convert: AutoConvert) returns (mode: Mode)
    requires 3 * (w * h) <= image.Length
    ensures Chosen(mode, Pixels(image[..], w * h),
                   auto_convert.LAC_AUTO_NO_NIBBLES? || auto_convert.LAC_AUTO_NO_NIBBLES_NO_PALETTE?,
                   auto_convert.LAC_AUTO_NO_PALETTE? || auto_convert.LAC_AUTO_NO_NIBBLES_NO_PALETTE?)
    ensures Lossless(mode, Pixels(image[..], w * h))
  {
    hide Pixels, Greys, Distinct, Lossless, PaletteIn, GreyIn, Pow2;
    var no_nibbles := auto_convert == LAC_AUTO_NO_NIBBLES || auto_convert == LAC_AUTO_NO_NIBBLES_NO_PALETTE;
    var no_palette := auto_convert == LAC_AUTO_NO_PALETTE || auto_convert == LAC_AUTO_NO_NIBBLES_NO_PALETTE;
    var profile := GetColorProfile(image, w * h);
    ghost var px := Pixels(image[..], w * h);
    var n := profile.numcolors;
    var palette_ok := !no_palette && n <= 256 && n * 2 < w * h;
    var palettebits := if n <= 2 then 1 else if n <= 4 then 2 else if n <= 16 then 4 else 8;
    var grey_ok := !profile.colored;
    GreyDepths(profile.colored, profile.greybits, px);
    if n <= 256 { PaletteDepths(px, palettebits); }
    if palette_ok || grey_ok {
      if !palette_ok || (grey_ok && profile.greybits <= palettebits) {
        mode := Mode(LCT_GREY, profile.greybits, []);
      } else {
        mode := Mode(LCT_PALETTE, palettebits, profile.palette);
      }
    } else {
      mode := Mode(if profile.colored then LCT_RGB else LCT_GREY, 8, []);
    }
    if no_nibbles && mode.bitdepth < 8 {
      mode := mode.(bitdepth := 8);
    }
    assert palette_ok == PaletteOk(px, no_palette);
    if palette_ok && !(grey_ok && profile.greybits <= palettebits) {
      assert Depth(palettebits) && PaletteIn(px, palettebits) && !GreyIn(px, palettebits);
    }
    ChosenLossless(mode, px, no_nibbles, no_palette);
  }

  lemma GreyDepths(colored: bool, greybits: nat, px: seq<Color>)
    requires Greys(colored, greybits, px, |px|)
    ensures Depth(greybits)
    ensures forall b | Depth(b) :: GreyIn(px, b) <==> !colored && greybits <= b
  {
    hide AllExact, Grey;
  }

  lemma PaletteDepths(px: seq<Color>, bits: nat)
    requires var n := |Distinct(px, |px|)|;
             n <= 256 && bits == if n <= 2 then 1 else if n <= 4 then 2 else if n <= 16 then 4 else 8
    ensures forall b | Depth(b) :: PaletteIn(px, b) <==> bits <= b
  {
    hide Distinct;
    assert Pow2(1) == 2 && Pow2(2) == 4 && Pow2(4) == 16 && Pow2(8) == 256;
  }

  // ---------------------------------------------------------------- conversion to the mode

  predicate DepthOk(mode: Mode) {
    if mode.colortype.LCT_RGB? then mode.bitdepth == 8 else Nibble(mode.bitdepth) || mode.bitdepth == 8
  }

  /** Room for n pixels. */
  ghost predicate Room(mode: Mode, n: nat, size: nat) {
    if mode.colortype.LCT_RGB? then 3 * n <= size
    else if mode.bitdepth == 8 then n <= size
    else Pos(mode.bitdepth, n) <= 8 * size
  }

  /** The palette entries that indices of this depth can reach. */
  function Reachable(mode: Mode): (n: nat)
    ensures n <= |mode.palette|
  {
    if |mode.palette| < Pow2(mode.bitdepth) then |mode.palette| else Pow2(mode.bitdepth)
  }

  /** The grey value or palette index that stands for a colour. */
  function Code(mode: Mode, c: Color): int
    requires DepthOk(mode)
  {
    if mode.colortype.LCT_PALETTE? then LastIndex(mode.palette, Reachable(mode), c)
    else Shr(c.r, 8 - mode.bitdepth)
  }

  lemma CodeFits(mode: Mode, c: Color)
    requires DepthOk(mode)
    ensures Code(mode, c) < Pow2(mode.bitdepth)
  {
    hide LastIndex, Pow2, Shr;
    assert Pow2(8) == 256 by { Pow2Eight(); }
    if !mode.colortype.LCT_PALETTE? { ShrFits(c.r, 8 - mode.bitdepth, 8); }
  }

  lemma Pow2Eight()
    ensures Pow2(8) == 256 && Pow2(4) == 16 && Pow2(2) == 4 && Pow2(1) == 2
  {
  }

  /** The first n codes, packed. */
  ghost function Packed(codes: seq<nat>, bits: nat, n: nat): (r: Bitstring)
    requires n <= |codes|
    ensures |r| == Pos(bits, n)
  {
    if n == 0 then [] else Packed(codes, bits, n - 1) + Msb(codes[n - 1], bits)
  }

  lemma {:induction false} PackedAt(codes: seq<nat>, bits: nat, n: nat, i: nat)
    requires i < n <= |codes|
    ensures Pos(bits, i) + bits <= Pos(bits, n)
    ensures Packed(codes, bits, n)[Pos(bits, i)..Pos(bits, i) + bits] == Msb(codes[i], bits)
  {
    hide Msb;
    if i < n - 1 {
      PackedAt(codes, bits, n - 1, i);
      var front := Packed(codes, bits, n - 1);
      assert Packed(codes, bits, n)[Pos(bits, i)..Pos(bits, i) + bits] == front[Pos(bits, i)..Pos(bits, i) + bits];
    }
  }

  /** How many bits of the last byte are still unused after n codes. */
  function Unused(bits: nat, n: nat): nat {
    if Pos(bits, n) % 8 == 0 then 0 else 8 - Pos(bits, n) % 8
  }

  /** n codes stand at the start of the buffer, and the last byte is filled up with zeros. */
  ghost predicate Written(now: Bitstring, was: Bitstring, codes: seq<nat>, bits: nat, n: nat)
    requires n <= |codes|
  {
    Placed(now, was, 0, Packed(codes, bits, n) + Zeros(Unused(bits, n)))
  }

  lemma WrittenStart(was: Bitstring, codes: seq<nat>, bits: nat)
    ensures Written(was, was, codes, bits, 0) && Pos(bits, 0) == 0
  {
    assert Packed(codes, bits, 0) + Zeros(Unused(bits, 0)) == [];
  }

  /** Before the next code the rest of its byte is zero. */
  lemma WrittenNow(now: Bitstring, was: Bitstring, codes: seq<nat>, bits: nat, n: nat)
    requires n <= |codes| && Nibble(bits) && Written(now, was, codes, bits, n)
    ensures |now| == |was|
    ensures n % (8 / bits) == 0 || forall j | Pos(bits, n) <= j < Pos(bits, n) + bits + Rest(bits, n) && j < |now| ::
              !now[j]
  {
    hide Pos, Packed;
    GroupPlace(bits, n);
    var u := Packed(codes, bits, n) + Zeros(Unused(bits, n));
    PlacedAt(now, was, 0, u);
    if n % (8 / bits) != 0 {
      forall j | Pos(bits, n) <= j < Pos(bits, n) + bits + Rest(bits, n) && j < |now| ensures !now[j] {
        assert now[0 + j] == u[j];
      }
    }
  }

  lemma WrittenNext(now: Bitstring, mid: Bitstring, was: Bitstring, codes: seq<nat>, bits: nat, n: nat)
    requires n < |codes| && Nibble(bits) && Written(mid, was, codes, bits, n)
    requires Placed(now, mid, Pos(bits, n), Msb(codes[n], bits) + Zeros(Rest(bits, n)))
    ensures Written(now, was, codes, bits, n + 1)
  {
    hide Msb, Placed, Pos, Unused, Rest;
    UnusedNext(bits, n);
    Overwritten(now, mid, was, Packed(codes, bits, n), Unused(bits, n), Msb(codes[n], bits), Rest(bits, n));
  }

  lemma UnusedNext(bits: nat, n: nat)
    requires Nibble(bits)
    ensures Unused(bits, n) <= bits + Rest(bits, n) && Rest(bits, n) == Unused(bits, n + 1)
  {
    var p, q := Pos(bits, n), Pos(bits, n + 1);
    assert q == p + bits && q % 8 == (p % 8 + bits) % 8;
  }

  lemma Overwritten(now: Bitstring, mid: Bitstring, was: Bitstring, a: Bitstring, k: nat, u: Bitstring, r: nat)
    requires Placed(mid, was, 0, a + Zeros(k)) && Placed(now, mid, |a|, u + Zeros(r)) && k <= |u| + r
    ensures Placed(now, was, 0, a + u + Zeros(r))
  {
    hide Placed, Zeros;
    PlacedAt(mid, was, 0, a + Zeros(k));
    PlacedAt(now, mid, |a|, u + Zeros(r));
    forall j | 0 <= j < |a| ensures now[j] == a[j] { assert mid[0 + j] == (a + Zeros(k))[j]; }
    assert now[..|a|] == a;
    assert now[|a|..|a| + |u| + r] == u + Zeros(r);
    assert now[|a| + |u| + r..] == was[|a| + |u| + r..];
    PlacedFrom(now, was, a, u + Zeros(r));
    assert a + (u + Zeros(r)) == a + u + Zeros(r);
  }

  lemma PlacedFrom(now: Bitstring, was: Bitstring, a: Bitstring, v: Bitstring)
    requires |a| + |v| <= |now| == |was| && now[..|a|] == a && now[|a|..|a| + |v|] == v
    requires now[|a| + |v|..] == was[|a| + |v|..]
    ensures Placed(now, was, 0, a + v)
  {
    assert now == now[..|a|] + now[|a|..|a| + |v|] + now[|a| + |v|..];
  }

  /** The palette as a tree, for all entries that an index can reach. */
  method PaletteTree(mode: Mode) returns (tree: ColorTree)
    ensures fresh(tree) && tree.Valid() && forall p | p in tree.nodes :: fresh(tree.nodes[p])
    ensures forall c :: tree.Lookup(c) == LastIndex(mode.palette, Reachable(mode), c)
  {
    hide ColorTree.Valid, ColorTree.Index, Path, Pow2;
    tree := new ColorTree();
    for i := 0 to Reachable(mode)
      invariant fresh(tree) && tree.Valid() && forall p | p in tree.nodes :: fresh(tree.nodes[p])
      invariant forall c :: tree.Lookup(c) == LastIndex(mode.palette, i, c)
    {
      tree.Add(mode.palette[i], i);
      IndexExtended(mode.palette, i, i + 1);
    }
  }

  lemma IndexExtended(palette: seq<Color>, i: nat, n: nat)
    requires i < |palette| && n == i + 1
    ensures forall c :: LastIndex(palette, n, c) == if c == palette[i] then i else LastIndex(palette, i, c)
  {
    hide LastIndex;
    forall c ensures LastIndex(palette, n, c) == if c == palette[i] then i else LastIndex(palette, i, c) {
      OneMoreEntry(palette, i, c);
    }
  }

  lemma OneMoreEntry(palette: seq<Color>, i: nat, c: Color)
    requires i < |palette|
    ensures LastIndex(palette, i + 1, c) == if c == palette[i] then i else LastIndex(palette, i, c)
  {
  }

  /** The value of pixel i in a greyscale or palette image. */
  function Sample(bits: nat, data: seq<byte>, i: nat): nat
    requires if bits == 8 then i < |data| else Pos(bits, i) + bits <= 8 * |data|
  {
    if bits == 8 then data[i] else Big(RBits(data)[Pos(bits, i)..Pos(bits, i) + bits])
  }

  /** In a byte the first of two, four or eight pixels has the highest bits. */
  lemma SampleIs(bits: nat, data: seq<byte>, i: nat)
    requires Nibble(bits) && Pos(bits, i) + bits <= 8 * |data|
    ensures var p := bits * i;
            && p / 8 < |data| && bits + p % 8 <= 8
            && Sample(bits, data, i) ==
               Quotient(data[p / 8], 8 - bits - p % 8) % (if bits == 1 then 2 else if bits == 2 then 4 else 16)
  {
    hide Quotient, Big;
    PosIs(bits, i);
    Aligned(bits, i);
    GroupIs(bits, data, bits * i);
  }

  lemma Aligned(bits: nat, i: nat)
    requires Nibble(bits)
    ensures bits + bits * i % 8 <= 8
  {
    if bits == 1 {
    } else if bits == 2 {
      assert 2 * i % 2 == 0;
    } else {
      assert 4 * i % 4 == 0;
    }
  }

  lemma GroupIs(bits: nat, data: seq<byte>, p: nat)
    requires Nibble(bits) && p + bits <= 8 * |data| && bits + p % 8 <= 8
    ensures p / 8 < |data|
    ensures Big(RBits(data)[p..p + bits]) ==
            Quotient(data[p / 8], 8 - bits - p % 8) % (if bits == 1 then 2 else if bits == 2 then 4 else 16)
  {
    hide Quotient, ByteBit, Big, One, RBit;
    var d, s, h := data[p / 8], RBits(data)[p..p + bits], 8 - bits - p % 8;
    QuotientIs(d, h);
    BitOfByte(data, p, 0);
    if bits == 1 {
      BigOne(s);
      OneBit(d, h);
    } else if bits == 2 {
      BitOfByte(data, p, 1);
      BigTwo(s);
      TwoBits(d, h);
    } else {
      GroupOfFour(data, p);
    }
  }

  lemma GroupOfFour(data: seq<byte>, p: nat)
    requires p + 4 <= 8 * |data| && 4 + p % 8 <= 8
    ensures p / 8 < |data| && Big(RBits(data)[p..p + 4]) == Shr(data[p / 8], 4 - p % 8) % 16
  {
    hide Shr, ByteBit, Big, One, RBit;
    BitOfByte(data, p, 0);
    BitOfByte(data, p, 1);
    BitOfByte(data, p, 2);
    BitOfByte(data, p, 3);
    var d, s, h := data[p / 8], RBits(data)[p..p + 4], 4 - p % 8;
    assert s[0] == ByteBit(d, h + 3) && s[1] == ByteBit(d, h + 2) && s[2] == ByteBit(d, h + 1) && s[3] == ByteBit(d, h);
    BigFour(s);
    FourBits(d, h);
  }

  lemma BitOfByte(data: seq<byte>, p: nat, k: nat)
    requires p % 8 + k < 8 && p < 8 * |data|
    ensures p + k < 8 * |data| && RBit(data, p + k) == ByteBit(data[p / 8], 7 - p % 8 - k)
  {
    hide ByteBit;
    assert (p + k) / 8 == p / 8 && (p + k) % 8 == p % 8 + k;
  }

  lemma OneBit(d: byte, k: nat)
    ensures One(ByteBit(d, k)) == Shr(d, k) % 2
  {
  }

  lemma TwoBits(d: byte, k: nat)
    ensures 2 * One(ByteBit(d, k + 1)) + One(ByteBit(d, k)) == Shr(d, k) % 4
  {
    hide Shr;
    ShrStep(d, k);
  }

  lemma FourBits(d: byte, k: nat)
    ensures 8 * One(ByteBit(d, k + 3)) + 4 * One(ByteBit(d, k + 2)) + 2 * One(ByteBit(d, k + 1)) + One(ByteBit(d, k))
            == Shr(d, k) % 16
  {
    hide Shr, ByteBit;
    BitOf(d, k);
    BitOf(d, k + 1);
    BitOf(d, k + 2);
    BitOf(d, k + 3);
    Remainder(Shr(d, k), Shr(d, k + 4), 8 * One(ByteBit(d, k + 3)) + 4 * One(ByteBit(d, k + 2))
                                        + 2 * One(ByteBit(d, k + 1)) + One(ByteBit(d, k)));
  }

  lemma BitOf(d: byte, k: nat)
    ensures Shr(d, k) == 2 * Shr(d, k + 1) + One(ByteBit(d, k))
  {
    hide Shr;
    ShrStep(d, k);
  }

  lemma Remainder(v: nat, q: nat, r: nat)
    requires v == 16 * q + r && r < 16
    ensures v % 16 == r
  {
  }

  lemma BigOne(s: Bitstring)
    requires |s| == 1
    ensures Big(s) == One(s[0])
  {
    assert s[..0] == [];
  }

  lemma BigTwo(s: Bitstring)
    requires |s| == 2
    ensures Big(s) == 2 * One(s[0]) + One(s[1])
  {
    BigOne(s[..1]);
  }

  lemma BigFour(s: Bitstring)
    requires |s| == 4
    ensures Big(s) == 8 * One(s[0]) + 4 * One(s[1]) + 2 * One(s[2]) + One(s[3])
  {
    BigTwo(s[..2]);
    var t := s[..3];
    assert t[..2] == s[..2];
    assert Big(t) == 2 * Big(t[..2]) + One(t[2]);
  }

  /** What greyscale samples mean: 0 is black, the greatest number white, the others lie evenly between. */
  lemma GreyMeaning(mode: Mode, v: nat)
    requires mode.colortype.LCT_GREY? && Depth(mode.bitdepth) && v < Pow2(mode.bitdepth)
    ensures var grey := match mode.bitdepth case 1 => 255 * v case 2 => 85 * v case 4 => 17 * v case _ => v;
            grey < 256 && Meaning(mode, v) == Color(grey, grey, grey, 255)
  {
    assert Pow2(1) == 2 && Pow2(2) == 4 && Pow2(4) == 16;
    assert Pow2(8) == 256 by { Pow2Eight(); }
  }

  lemma RoomFor(mode: Mode, n: nat, size: nat, i: nat)
    requires DepthOk(mode) && Room(mode, n, size) && i < n
    ensures if mode.colortype.LCT_RGB? then 3 * i + 3 <= size
            else if mode.bitdepth == 8 then i < size else Pos(mode.bitdepth, i) + mode.bitdepth <= 8 * size
  {
    RowFits(mode.bitdepth, i, n);
  }

  /** The buffer holds the pixels in this mode. */
  ghost predicate Holds(mode: Mode, data: seq<byte>, px: seq<Color>)
    requires DepthOk(mode) && Room(mode, |px|, |data|)
  {
    forall i | 0 <= i < |px| :: HoldsAt(mode, data, px, i)
  }

  ghost predicate HoldsAt(mode: Mode, data: seq<byte>, px: seq<Color>, i: nat)
    requires DepthOk(mode) && Room(mode, |px|, |data|) && i < |px|
  {
    RoomFor(mode, |px|, |data|, i);
    if mode.colortype.LCT_RGB? then PixelAt(data, i) == px[i] else Sample(mode.bitdepth, data, i) == Code(mode, px[i])
  }

  /** The codes of all pixels. */
  ghost function Codes(mode: Mode, px: seq<Color>): (r: seq<nat>)
    requires DepthOk(mode)
    ensures |r| == |px| && forall i | 0 <= i < |px| :: Code(mode, px[i]) >= 0 ==> r[i] == Code(mode, px[i])
  {
    seq(|px|, i requires 0 <= i < |px| => if Code(mode, px[i]) >= 0 then Code(mode, px[i]) else 0)
  }

  lemma WrittenHolds(mode: Mode, data: seq<byte>, was: Bitstring, px: seq<Color>)
    requires !mode.colortype.LCT_RGB? && Nibble(mode.bitdepth) && Room(mode, |px|, |data|)
    requires Written(RBits(data), was, Codes(mode, px), mode.bitdepth, |px|)
    requires forall i | 0 <= i < |px| :: Code(mode, px[i]) >= 0
    ensures Holds(mode, data, px)
  {
    hide Code, Pow2, Msb, RBits, Placed, Packed, Pos, Zeros;
    var bits, codes := mode.bitdepth, Codes(mode, px);
    var u := Packed(codes, bits, |px|) + Zeros(Unused(bits, |px|));
    PlacedAt(RBits(data), was, 0, u);
    forall i | 0 <= i < |px| ensures HoldsAt(mode, data, px, i) {
      PackedAt(codes, bits, |px|, i);
      SliceTwice(RBits(data), u, Packed(codes, bits, |px|), Pos(bits, i), bits);
      CodeFits(mode, px[i]);
      BigMsb(codes[i], bits);
    }
  }

  lemma SliceTwice(s: Bitstring, u: Bitstring, v: Bitstring, a: nat, n: nat)
    requires |v| <= |u| <= |s| && u[..|v|] == v && s[..|u|] == u && a + n <= |v|
    ensures s[a..a + n] == v[a..a + n]
  {
    var l, r := s[a..a + n], v[a..a + n];
    forall k | 0 <= k < n ensures l[k] == r[k] {
      assert s[..|u|][a + k] == u[..|v|][a + k];
    }
  }

  /** The code of one pixel (getPixelColorRGBA8 and the beginning of rgba8ToPixel), or -1 if the palette lacks it */
  method PixelCode(mode: Mode, tree: ColorTree, c: Color) returns (code: int)
    requires DepthOk(mode) && !mode.colortype.LCT_RGB? && tree.Valid()
    requires forall c :: tree.Lookup(c) == LastIndex(mode.palette, Reachable(mode), c)
    ensures code == Code(mode, c)
  {
    if mode.colortype.LCT_PALETTE? {
      code := tree.Get(c);
    } else {
      code := Shr(c.r, 8 - mode.bitdepth);
    }
  }

  /** lodepng_convert from 8-bit RGB: error 82 for a colour that is not in the palette */
  method ConvertFromRGB8(out: array<byte>, input: array<byte>, mode: Mode, numpixels: nat) returns (error: nat)
    requires out != input && 3 * numpixels <= input.Length && DepthOk(mode) && Room(mode, numpixels, out.Length)
    modifies out
    ensures var px := Pixels(input[..], numpixels);
            if !mode.colortype.LCT_RGB? && exists i :: 0 <= i < numpixels && Code(mode, px[i]) < 0 then error == 82
            else error == 0 && Holds(mode, out[..], px)
  {
    hide ColorTree.Valid, ColorTree.Index, Path, Pow2, LastIndex, Code, RBits, Written, Pixels, Pos, Holds, Room, Codes;
    ghost var px := Pixels(input[..], numpixels);
    if mode.colortype == LCT_RGB {
      CopyPixels(out, input, mode, numpixels);
      return 0;
    }
    var tree := PaletteTree(mode);
    if mode.bitdepth == 8 {
      error := ConvertToBytes(out, input, mode, numpixels, tree);
    } else {
      error := ConvertToNibbles(out, input, mode, numpixels, tree);
    }
  }

  /** Equal modes: the bytes are copied. */
  method CopyPixels(out: array<byte>, input: array<byte>, mode: Mode, numpixels: nat)
    requires out != input && 3 * numpixels <= input.Length && DepthOk(mode) && mode.colortype == LCT_RGB
    requires Room(mode, numpixels, out.Length)
    modifies out
    ensures Holds(mode, out[..], Pixels(input[..], numpixels))
  {
    for i := 0 to 3 * numpixels
      invariant forall k | 0 <= k < i :: out[k] == input[k]
    {
      out[i] := input[i];
    }
  }

  /** One byte a pixel */
  method ConvertToBytes(out: array<byte>, input: array<byte>, mode: Mode, numpixels: nat, tree: ColorTree)
    returns (error: nat)
    requires out != input && 3 * numpixels <= input.Length && DepthOk(mode) && !mode.colortype.LCT_RGB?
    requires mode.bitdepth == 8
    requires Room(mode, numpixels, out.Length) && tree.Valid()
    requires forall c :: tree.Lookup(c) == LastIndex(mode.palette, Reachable(mode), c)
    modifies out
    ensures var px := Pixels(input[..], numpixels);
            if exists i :: 0 <= i < numpixels && Code(mode, px[i]) < 0 then error == 82
            else error == 0 && Holds(mode, out[..], px)
  {
    hide ColorTree.Valid, ColorTree.Index, ColorTree.Lookup, Path, Pow2, LastIndex, Code, Pixels, Reachable;
    ghost var px := Pixels(input[..], numpixels);
    for i := 0 to numpixels
      invariant forall k | 0 <= k < i :: out[k] == Code(mode, px[k])
    {
      var c := Color(input[3 * i], input[3 * i + 1], input[3 * i + 2], 255);
      assert c == px[i];
      var code := PixelCode(mode, tree, c);
      if code < 0 { return 82; }
      CodeFits(mode, c);
      Pow2Eight();
      out[i] := code;
    }
    error := 0;
  }

  /** One, two or four bits a pixel */
  method ConvertToNibbles(out: array<byte>, input: array<byte>, mode: Mode, numpixels: nat, tree: ColorTree)
    returns (error: nat)
    requires out != input && 3 * numpixels <= input.Length && !mode.colortype.LCT_RGB? && Nibble(mode.bitdepth)
    requires Room(mode, numpixels, out.Length) && tree.Valid()
    requires forall c :: tree.Lookup(c) == LastIndex(mode.palette, Reachable(mode), c)
    modifies out
    ensures var px := Pixels(input[..], numpixels);
            if exists i :: 0 <= i < numpixels && Code(mode, px[i]) < 0 then error == 82
            else error == 0 && Holds(mode, out[..], px)
  {
    hide ColorTree.Valid, ColorTree.Index, ColorTree.Lookup, Path, Pow2, LastIndex, Code, Pixels, RBits, Written, Pos,
         Holds, Reachable, Placed, Msb, Zeros, Rest, Room;
    ghost var px := Pixels(input[..], numpixels);
    ghost var codes, was := Codes(mode, px), RBits(out[..]);
    WrittenStart(was, codes, mode.bitdepth);
    for i := 0 to numpixels
      invariant forall k | 0 <= k < i :: Code(mode, px[k]) >= 0
      invariant Written(RBits(out[..]), was, codes, mode.bitdepth, i)
    {
      var c := Color(input[3 * i], input[3 * i + 1], input[3 * i + 2], 255);
      assert c == px[i];
      var code := PixelCode(mode, tree, c);
      if code < 0 { return 82; }
      CodeFits(mode, c);
      RoomFor(mode, numpixels, out.Length, i);
      ghost var mid := RBits(out[..]);
      WrittenNow(mid, was, codes, mode.bitdepth, i);
      AddColorBits(out, i, mode.bitdepth, code);
      SmallMod(code, Pow2(mode.bitdepth));
      WrittenNext(RBits(out[..]), mid, was, codes, mode.bitdepth, i);
    }
    WrittenHolds(mode, out[..], was, px);
    error := 0;
  }

  lemma SmallMod(a: nat, b: nat)
    requires a < b
    ensures a % b == a
  {
  }

  // ---------------------------------------------------------------- conversion back

  /** The colour that a sample stands for; an index beyond the palette is black. */
  function Meaning(mode: Mode, v: nat): Color
    requires DepthOk(mode)
  {
    if mode.colortype.LCT_PALETTE? then (if v < |mode.palette| then mode.palette[v] else Color(0, 0, 0, 255))
    else if mode.bitdepth == 8 then Color(v % 256, v % 256, v % 256, 255)
    else Pow2Eight(); var grey := v * 255 / (Pow2(mode.bitdepth) - 1) % 256; Color(grey, grey, grey, 255)
  }

  /** Pixel i of an image in this mode; the output has no alpha channel. */
  ghost function ColourAt(mode: Mode, data: seq<byte>, n: nat, i: nat): Color
    requires DepthOk(mode) && Room(mode, n, |data|) && i < n
  {
    RoomFor(mode, n, |data|, i);
    if mode.colortype.LCT_RGB? then PixelAt(data, i) else Meaning(mode, Sample(mode.bitdepth, data, i)).(a := 255)
  }

  /** A palette index that the palette does not reach. */
  ghost predicate BadIndex(mode: Mode, data: seq<byte>, n: nat, i: nat)
    requires DepthOk(mode) && Room(mode, n, |data|) && i < n
  {
    RoomFor(mode, n, |data|, i);
    mode.colortype.LCT_PALETTE? && Sample(mode.bitdepth, data, i) >= |mode.palette|
  }

  /** What stands for a colour means that colour, if the mode is lossless for it. */
  lemma MeaningOfCode(mode: Mode, px: seq<Color>, i: nat)
    requires DepthOk(mode) && !mode.colortype.LCT_RGB? && Lossless(mode, px) && i < |px| && px[i].a == 255
    ensures Code(mode, px[i]) >= 0 && Meaning(mode, Code(mode, px[i])) == px[i]
    ensures mode.colortype.LCT_PALETTE? ==> Code(mode, px[i]) < |mode.palette|
  {
    hide Pow2, Shr, LastIndex, Reachable, Meaning, Code, Exact;
    var c := px[i];
    if mode.colortype.LCT_PALETTE? { PaletteMeans(mode, c); } else { GreyMeans(mode, c); }
  }

  lemma PaletteMeans(mode: Mode, c: Color)
    requires DepthOk(mode) && mode.colortype.LCT_PALETTE? && |mode.palette| <= Pow2(mode.bitdepth) && c in mode.palette
    ensures 0 <= Code(mode, c) < |mode.palette| && Meaning(mode, Code(mode, c)) == c
  {
    hide Pow2, Shr;
    assert mode.palette[..|mode.palette|] == mode.palette;
  }

  lemma GreyMeans(mode: Mode, c: Color)
    requires DepthOk(mode) && mode.colortype.LCT_GREY? && Grey(c) && Exact(c.r, mode.bitdepth) && c.a == 255
    ensures Code(mode, c) >= 0 && Meaning(mode, Code(mode, c)) == c
  {
    hide Pow2, Shr, LastIndex, Exact;
    GreyBack(c.r, mode.bitdepth);
  }

  /** Scaling a grey value down and up again */
  lemma GreyBack(v: byte, bits: nat)
    requires Exact(v, bits)
    ensures if bits == 8 then Shr(v, 0) == v else Pow2(bits) > 1 && Shr(v, 8 - bits) * 255 / (Pow2(bits) - 1) == v
  {
    hide Shr;
    assert Pow2(1) == 2 && Pow2(2) == 4 && Pow2(4) == 16;
    assert Pow2(7) == 128 && Pow2(6) == 64;
    ShrBounds(v, 8 - bits);
    var k := v / (if bits == 1 then 255 else if bits == 2 then 85 else 17);
    if bits < 8 { assert Shr(v, 8 - bits) == k; }
  }

  /** The first n pixels of the output are what those of the input mean. */
  ghost predicate Converted(out: seq<byte>, mode: Mode, data: seq<byte>, numpixels: nat, n: nat)
    requires DepthOk(mode) && Room(mode, numpixels, |data|) && n <= numpixels && 3 * n <= |out|
  {
    forall i | 0 <= i < n :: PixelAt(out, i) == ColourAt(mode, data, numpixels, i)
  }

  lemma ConvertedNext(now: seq<byte>, was: seq<byte>, mode: Mode, data: seq<byte>, numpixels: nat, n: nat, c: Color)
    requires DepthOk(mode) && Room(mode, numpixels, |data|) && n < numpixels && 3 * n + 3 <= |was|
    requires Converted(was, mode, data, numpixels, n)
    requires now == was[3 * n := c.r][3 * n + 1 := c.g][3 * n + 2 := c.b]
    requires ColourAt(mode, data, numpixels, n) == c.(a := 255)
    ensures Converted(now, mode, data, numpixels, n + 1)
  {
    hide ColourAt, Room;
    forall i | 0 <= i < n + 1 ensures PixelAt(now, i) == ColourAt(mode, data, numpixels, i) {
      if i < n { assert PixelAt(now, i) == PixelAt(was, i); }
    }
  }

  /** getPixelColorsRGBA8 without alpha, for a palette image */
  method PaletteToRGB8(out: array<byte>, input: array<byte>, mode: Mode, numpixels: nat, fix_png: bool)
    returns (error: nat)
    requires out != input && 3 * numpixels <= out.Length && DepthOk(mode) && mode.colortype == LCT_PALETTE
    requires Room(mode, numpixels, input.Length)
    modifies out
    ensures if !fix_png && exists i: nat :: i < numpixels && BadIndex(mode, input[..], numpixels, i)
            then error == if mode.bitdepth == 8 then 46 else 47
            else error == 0 && Converted(out[..], mode, input[..], numpixels, numpixels)
  {
    hide RBits, Big, Pos, Room, Converted;
    ghost var data := input[..];
    NothingConverted(out[..], mode, data, numpixels);
    var j: nat := 0;
    for i := 0 to numpixels
      invariant j == if mode.bitdepth == 8 then 0 else Pos(mode.bitdepth, i)
      invariant !fix_png ==> forall k: nat | k < i :: !BadIndex(mode, data, numpixels, k)
      invariant Converted(out[..], mode, data, numpixels, i)
    {
      RoomFor(mode, numpixels, input.Length, i);
      NextPos(mode.bitdepth, i);
      var index: nat;
      if mode.bitdepth == 8 {
        index := input[i];
      } else {
        index, j := ReadBitsFromReversedStream(j, input, mode.bitdepth);
      }
      assert index == Sample(mode.bitdepth, data, i);
      ghost var was := out[..];
      if index >= |mode.palette| {
        if !fix_png {
          assert BadIndex(mode, data, numpixels, i);
          return if mode.bitdepth == 8 then 46 else 47;
        }
        out[3 * i], out[3 * i + 1], out[3 * i + 2] := 0, 0, 0;
        ConvertedNext(out[..], was, mode, data, numpixels, i, Color(0, 0, 0, 255));
      } else {
        out[3 * i], out[3 * i + 1], out[3 * i + 2] :=
          mode.palette[index].r, mode.palette[index].g, mode.palette[index].b;
        ConvertedNext(out[..], was, mode, data, numpixels, i, mode.palette[index]);
      }
    }
    error := 0;
  }

  /** getPixelColorsRGBA8 without alpha, for a greyscale image */
  method GreyToRGB8(out: array<byte>, input: array<byte>, mode: Mode, numpixels: nat)
    requires out != input && 3 * numpixels <= out.Length && DepthOk(mode) && mode.colortype == LCT_GREY
    requires Room(mode, numpixels, input.Length)
    modifies out
    ensures Converted(out[..], mode, input[..], numpixels, numpixels)
  {
    hide RBits, Big, Pos, Room, Converted, Pow2;
    ghost var data := input[..];
    NothingConverted(out[..], mode, data, numpixels);
    if mode.bitdepth == 8 {
      for i := 0 to numpixels
        invariant Converted(out[..], mode, data, numpixels, i)
      {
        RoomFor(mode, numpixels, input.Length, i);
        ghost var was := out[..];
        out[3 * i], out[3 * i + 1], out[3 * i + 2] := input[i], input[i], input[i];
        ConvertedNext(out[..], was, mode, data, numpixels, i, Color(input[i], input[i], input[i], 255));
      }
    } else {
      Pow2Eight();
      var highest := Pow2(mode.bitdepth) - 1;
      var j: nat := 0;
      for i := 0 to numpixels
        invariant j == Pos(mode.bitdepth, i)
        invariant Converted(out[..], mode, data, numpixels, i)
      {
        RoomFor(mode, numpixels, input.Length, i);
        NextPos(mode.bitdepth, i);
        var value;
        value, j := ReadBitsFromReversedStream(j, input, mode.bitdepth);
        ghost var was := out[..];
        var grey: byte := value * 255 / highest % 256;
        out[3 * i], out[3 * i + 1], out[3 * i + 2] := grey, grey, grey;
        ConvertedNext(out[..], was, mode, data, numpixels, i, Color(grey, grey, grey, 255));
      }
    }
  }

  lemma NextPos(bits: nat, i: nat)
    ensures Pos(bits, i + 1) == Pos(bits, i) + bits && Pos(bits, 0) == 0
  {
  }

  lemma NothingConverted(out: seq<byte>, mode: Mode, data: seq<byte>, numpixels: nat)
    requires DepthOk(mode) && Room(mode, numpixels, |data|)
    ensures Converted(out, mode, data, numpixels, 0) && Pos(mode.bitdepth, 0) == 0
  {
  }

  /** lodepng_convert to 8-bit RGB: error 46 or 47 for an index beyond the palette, unless that is to be put up with */
  method ConvertToRGB8(out: array<byte>, input: array<byte>, mode: Mode, numpixels: nat, fix_png: bool)
    returns (error: nat)
    requires out != input && 3 * numpixels <= out.Length && DepthOk(mode) && Room(mode, numpixels, input.Length)
    modifies out
    ensures if !fix_png && exists i: nat :: i < numpixels && BadIndex(mode, input[..], numpixels, i)
            then error == if mode.bitdepth == 8 then 46 else 47
            else error == 0 && Converted(out[..], mode, input[..], numpixels, numpixels)
  {
    match mode.colortype {
      case LCT_PALETTE => error := PaletteToRGB8(out, input, mode, numpixels, fix_png);
      case LCT_GREY =>
        GreyToRGB8(out, input, mode, numpixels);
        error := 0;
      case LCT_RGB =>
        ghost var px := Pixels(input[..], numpixels);
        CopyPixels(out, input, Mode(LCT_RGB, 8, []), numpixels);
        forall i | 0 <= i < numpixels ensures PixelAt(out[..], i) == ColourAt(mode, input[..], numpixels, i) {
          assert HoldsAt(Mode(LCT_RGB, 8, []), out[..], px, i);
        }
        error := 0;
    }
  }

  // ---------------------------------------------------------------- automatic choice loses nothing

  /** An image held in a lossless mode is that image. */
  lemma HeldIsMeant(mode: Mode, data: seq<byte>, image: seq<byte>, n: nat, i: nat)
    requires 3 * n <= |image| && DepthOk(mode) && Room(mode, n, |data|) && i < n
    requires Lossless(mode, Pixels(image, n)) && Holds(mode, data, Pixels(image, n))
    ensures ColourAt(mode, data, n, i) == PixelAt(image, i) && !BadIndex(mode, data, n, i)
  {
    hide Lossless, Code, Meaning, Sample, Room;
    var px := Pixels(image, n);
    assert HoldsAt(mode, data, px, i);
    if !mode.colortype.LCT_RGB? { MeaningOfCode(mode, px, i); }
  }

  lemma SamePixels(a: seq<byte>, b: seq<byte>, n: nat)
    requires 3 * n <= |a| && 3 * n <= |b| && forall i | 0 <= i < n :: PixelAt(a, i) == PixelAt(b, i)
    ensures a[..3 * n] == b[..3 * n]
  {
    forall k | 0 <= k < 3 * n ensures a[k] == b[k] {
      assert PixelAt(a, k / 3) == PixelAt(b, k / 3);
    }
  }

  /**
   * Whatever grey scale, palette or RGB mode is chosen for an image, converting to it and back gives the
   * image, without an error.
   */
  method AutoConvertRoundTrip(image: array<byte>, w: nat, h: nat, auto_convert: AutoConvert)
    returns (error: nat, mode: Mode, out: array<byte>)
    requires 3 * (w * h) <= image.Length
    ensures error == 0 && Lossless(mode, Pixels(image[..], w * h))
    ensures fresh(out) && out.Length == 3 * (w * h) && out[..] == image[..3 * (w * h)]
  {
    hide Lossless, Pixels, Holds, Converted, Code, BadIndex, ColourAt;
    var n := w * h;
    mode := AutoChooseColor(image, w, h, auto_convert);
    out := new byte[3 * n];
    ghost var px := Pixels(image[..], n);
    ModeOk(mode, px);
    var coded := new byte[RawSize(mode, n)];
    RawSizeFits(mode, n);
    AllCoded(mode, image[..], n);
    error := ConvertFromRGB8(coded, image, mode, n);
    ghost var data := coded[..];
    forall i: nat | i < n ensures ColourAt(mode, data, n, i) == PixelAt(image[..], i) && !BadIndex(mode, data, n, i) {
      HeldIsMeant(mode, data, image[..], n, i);
    }
    error := ConvertToRGB8(out, coded, mode, n, false);
    AllConverted(out[..], mode, data, n);
    SamePixels(out[..], image[..], n);
    assert out[..][..3 * n] == out[..];
  }

  lemma AllConverted(out: seq<byte>, mode: Mode, data: seq<byte>, n: nat)
    requires DepthOk(mode) && Room(mode, n, |data|) && 3 * n <= |out| && Converted(out, mode, data, n, n)
    ensures forall i | 0 <= i < n :: PixelAt(out, i) == ColourAt(mode, data, n, i)
  {
  }

  lemma ModeOk(mode: Mode, px: seq<Color>)
    requires Lossless(mode, px)
    ensures DepthOk(mode)
  {
  }

  lemma AllCoded(mode: Mode, image: seq<byte>, n: nat)
    requires 3 * n <= |image| && DepthOk(mode) && Lossless(mode, Pixels(image, n))
    ensures !mode.colortype.LCT_RGB? ==> forall i | 0 <= i < n :: Code(mode, Pixels(image, n)[i]) >= 0
  {
    hide Lossless, Code;
    if !mode.colortype.LCT_RGB? {
      forall i | 0 <= i < n ensures Code(mode, Pixels(image, n)[i]) >= 0 { MeaningOfCode(mode, Pixels(image, n), i); }
    }
  }

  /** lodepng_get_raw_size, for n pixels */
  function RawSize(mode: Mode, n: nat): nat {
    (n * (if mode.colortype == LCT_RGB then 24 else mode.bitdepth) + 7) / 8
  }

  lemma RawSizeFits(mode: Mode, n: nat)
    requires DepthOk(mode)
    ensures Room(mode, n, RawSize(mode, n))
  {
    PosIs(mode.bitdepth, n);
  }
}
