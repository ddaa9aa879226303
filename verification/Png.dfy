/** The image data of a PNG file: from 8-bit RGB pixels to the compressed stream and back. */
module Png {
  import opened Bits
  import opened Buffers
  import opened PngBits
  import opened BitGroups
  import opened ColourChoice
  import Adam7
  import PngFilter
  import ColorTree
  import S = Scanlines
  import Format
  import Deflate
  import Inflate
  import Zlib

  /** lodepng_get_bpp */
  function Bpp(mode: Mode): (bpp: nat)
    requires DepthOk(mode)
    ensures 0 < bpp < 8 || (bpp > 0 && bpp % 8 == 0)
  {
    if mode.colortype == LCT_RGB then 24 else mode.bitdepth
  }

  /** There is a filter type for every row, of the image or of each of its passes. */
  predicate FiltersOk(types: seq<seq<byte>>, interlace: bool, w: nat, h: nat) {
    if interlace then S.AllTypesOk(types, w, h) else types != [] && S.TypesOk(types[0], h)
  }

  ghost predicate IsImageData(lines: seq<byte>, bits: Bitstring, interlace: bool, types: seq<seq<byte>>, w: nat, h: nat,
                              bpp: nat) {
    if interlace then S.IsInterlacedScanlines(lines, bits, types, w, h, bpp)
    else types != [] && S.IsScanlines(lines, bits, types[0], w, h, bpp)
  }

  /** preProcessScanlines */
  method PreProcessScanlines(image: array<byte>, w: nat, h: nat, bpp: nat, interlace: bool, types: seq<seq<byte>>)
    returns (out: array<byte>)
    requires w > 0 && (0 < bpp < 8 || (bpp > 0 && bpp % 8 == 0)) && S.Holds(image, w, h, bpp)
    requires FiltersOk(types, interlace, w, h)
    ensures fresh(out) && IsImageData(out[..], RBits(image[..]), interlace, types, w, h, bpp)
  {
    hide RBits, S.IsScanlines, S.IsInterlacedScanlines, S.Holds;
    if interlace {
      out := S.PreProcessInterlaced(image, w, h, bpp, types);
    } else {
      out := S.PreProcessPlain(image, w, h, bpp, types[0]);
    }
  }

  /** postProcessScanlines, on the scanlines of some image: that image */
  method PostProcessScanlines(out: array<byte>, input: array<byte>, w: nat, h: nat, bpp: nat, interlace: bool,
                              ghost image: Bitstring, ghost types: seq<seq<byte>>) returns (error: nat)
    requires w > 0 && (0 < bpp < 8 || (bpp > 0 && bpp % 8 == 0)) && out != input && S.Holds(out, w, h, bpp)
    requires forall j | 0 <= j < 8 * out.Length :: !RBits(out[..])[j]
    requires IsImageData(input[..], image, interlace, types, w, h, bpp)
    modifies out, input
    ensures error == 0 && Pos(w * bpp, h) <= |image| && RBits(out[..])[..Pos(w * bpp, h)] == image[..Pos(w * bpp, h)]
  {
    hide RBits, S.IsScanlines, S.IsInterlacedScanlines, S.Decoded, S.AllDecoded, S.Deinterlaced, Placed, Pos,
         Adam7.FilterStart;
    ghost var data, was := input[..], RBits(out[..]);
    S.ImageBits(w, h, bpp);
    if interlace {
      S.InterlacedDecodes(data, image, types, w, h, bpp);
      error := S.PostProcessInterlaced(out, input, w, h, bpp);
      S.InterlacedInverse(data, image, RBits(out[..]), types, w, h, bpp);
    } else {
      S.ScanlinesDecoded(data, image, types[0], w, h, bpp);
      error := S.PostProcessPlain(out, input, w, h, bpp);
      PlainSize(data, image, types[0], w, h, bpp);
      PlacedAt(RBits(out[..]), was, 0, image[..Pos(w * bpp, h)]);
    }
  }

  lemma PlainSize(data: seq<byte>, image: Bitstring, types: seq<byte>, w: nat, h: nat, bpp: nat)
    requires S.IsScanlines(data, image, types, w, h, bpp)
    ensures Pos(w * bpp, h) <= |image|
  {
  }

  /** In two buffers with the same bits, pixel i means the same. */
  lemma SameMeaning(mode: Mode, a: seq<byte>, b: seq<byte>, n: nat, i: nat)
    requires DepthOk(mode) && Room(mode, n, |a|) && Room(mode, n, |b|) && i < n
    requires var size := n * Bpp(mode);
             size <= 8 * |a| && size <= 8 * |b| && RBits(a)[..size] == RBits(b)[..size]
    ensures ColourAt(mode, a, n, i) == ColourAt(mode, b, n, i)
    ensures BadIndex(mode, a, n, i) <==> BadIndex(mode, b, n, i)
  {
    hide RBits, Sample, PixelAt, Room, Big, Meaning;
    RoomFor(mode, n, |a|, i);
    RoomFor(mode, n, |b|, i);
    if mode.colortype.LCT_RGB? {
      SameBytes(a, b, 3 * i, 3, n * Bpp(mode));
      SamePixel(a, b, i);
    } else {
      SameSample(mode, a, b, n, n * Bpp(mode), i);
    }
  }

  lemma SameBytes(a: seq<byte>, b: seq<byte>, p: nat, n: nat, size: nat)
    requires 8 * (p + n) <= size <= 8 * |a| && size <= 8 * |b| && RBits(a)[..size] == RBits(b)[..size]
    ensures a[p..p + n] == b[p..p + n]
  {
    hide RBits;
    RBitsSlice(a, p, p + n);
    RBitsSlice(b, p, p + n);
    assert RBits(a)[..size][8 * p..8 * (p + n)] == RBits(a)[8 * p..8 * (p + n)];
    assert RBits(b)[..size][8 * p..8 * (p + n)] == RBits(b)[8 * p..8 * (p + n)];
    RBitsInjective(a[p..p + n], b[p..p + n]);
  }

  lemma SamePixel(a: seq<byte>, b: seq<byte>, i: nat)
    requires 3 * i + 3 <= |a| && 3 * i + 3 <= |b| && a[3 * i..3 * i + 3] == b[3 * i..3 * i + 3]
    ensures PixelAt(a, i) == PixelAt(b, i)
  {
    var s, t := a[3 * i..3 * i + 3], b[3 * i..3 * i + 3];
    assert s[0] == a[3 * i] && s[1] == a[3 * i + 1] && s[2] == a[3 * i + 2];
    assert t[0] == b[3 * i] && t[1] == b[3 * i + 1] && t[2] == b[3 * i + 2];
  }

  lemma SameSample(mode: Mode, a: seq<byte>, b: seq<byte>, n: nat, size: nat, i: nat)
    requires DepthOk(mode) && !mode.colortype.LCT_RGB? && i < n && size == n * mode.bitdepth
    requires Room(mode, n, |a|) && Room(mode, n, |b|)
    requires size <= 8 * |a| && size <= 8 * |b| && RBits(a)[..size] == RBits(b)[..size]
    ensures if mode.bitdepth == 8 then i < |a| && i < |b|
            else Pos(mode.bitdepth, i) + mode.bitdepth <= 8 * |a| && Pos(mode.bitdepth, i) + mode.bitdepth <= 8 * |b|
    ensures Sample(mode.bitdepth, a, i) == Sample(mode.bitdepth, b, i)
  {
    hide RBits, Big;
    RoomFor(mode, n, |a|, i);
    RoomFor(mode, n, |b|, i);
    var bits := mode.bitdepth;
    if bits == 8 {
      SameBytes(a, b, i, 1, size);
      assert a[i..i + 1][0] == a[i] && b[i..i + 1][0] == b[i];
    } else {
      PosIs(bits, n);
      RowFits(bits, i, n);
      var p := Pos(bits, i);
      SliceOfFront(RBits(a), size, p, bits);
      SliceOfFront(RBits(b), size, p, bits);
    }
  }

  lemma SliceOfFront(s: Bitstring, size: nat, p: nat, n: nat)
    requires p + n <= size <= |s|
    ensures s[..size][p..p + n] == s[p..p + n]
  {
  }

  /** Scanlines are never empty. */
  lemma SomeLines(lines: seq<byte>, bits: Bitstring, interlace: bool, types: seq<seq<byte>>, w: nat, h: nat, bpp: nat)
    requires w > 0 && h > 0 && IsImageData(lines, bits, interlace, types, w, h, bpp)
    ensures lines != []
  {
    hide S.IsScanlines, Adam7.FilterStart, Adam7.PassH, Adam7.RowBytes;
    if interlace {
      Adam7.CountIs(w, 0, 8, 0);
      Adam7.CountIs(h, 0, 8, 0);
      Adam7.StartsMono(w, h, bpp, 1, 7);
      FirstPass(w, h, bpp);
    } else {
      S.ScanlinesDecoded(lines, bits, types[0], w, h, bpp);
      RowFits(1 + PngFilter.LineBytes(w, bpp), 0, h);
    }
  }

  lemma FirstPass(w: nat, h: nat, bpp: nat)
    requires w > 0 && h > 0
    ensures Adam7.FilterStart(w, h, bpp, 1) > 0
  {
    Adam7.CountIs(w, 0, 8, 0);
    Adam7.CountIs(h, 0, 8, 0);
    RowFits(1 + Adam7.RowBytes(w, h, bpp, 0), 0, Adam7.PassH(w, h, 0));
  }

  /** The image as the encoder filters it: converted to the chosen mode. */
  method Convert(image: array<byte>, mode: Mode, n: nat) returns (converted: array<byte>)
    requires 3 * n <= image.Length && Lossless(mode, Pixels(image[..], n))
    ensures DepthOk(mode) && Room(mode, n, converted.Length) && n * Bpp(mode) <= 8 * converted.Length
    ensures Holds(mode, converted[..], Pixels(image[..], n))
  {
    hide Lossless, Pixels, Code;
    ghost var px := Pixels(image[..], n);
    ModeOk(mode, px);
    RawSizeFits(mode, n);
    AllCoded(mode, image[..], n);
    converted := new byte[RawSize(mode, n)];
    var error := ConvertFromRGB8(converted, image, mode, n);
  }

  /** lodepng_encode, up to the compressed stream of the IDAT chunk */
  method Encode(image: array<byte>, w: nat, h: nat, auto_convert: AutoConvert, interlace: bool, types: seq<seq<byte>>,
                s: Deflate.Settings)
    returns (defined: bool, error: nat, mode: Mode, idat: seq<byte>, ghost lines: seq<byte>,
             ghost converted: seq<byte>, ghost blocks: seq<Format.Block>)
    requires w > 0 && h > 0 && 3 * (w * h) <= image.Length && FiltersOk(types, interlace, w, h)
    requires s.btype <= 2 && (s.btype > 0 ==> Deflate.SettingsError(s) == 0)
    ensures defined <==> Deflate.Defined(lines, s)
    ensures (s.btype == 2 ==> s.use_lz77) ==> defined
    ensures defined ==> error == 0
    ensures Lossless(mode, Pixels(image[..], w * h)) && Carries(converted, mode, Pixels(image[..], w * h))
    ensures IsImageData(lines, RBits(converted), interlace, types, w, h, Bpp(mode))
    ensures defined ==> Compressed(idat, blocks, lines) && Checked(idat, lines)
  {
    hide RBits, Lossless, Pixels, Holds, IsImageData, Format.IsStream, Format.Decodable, Format.StreamData,
         Deflate.SettingsError, Compressed, Zlib.Adler32, FiltersOk, S.Holds, Room;
    mode := AutoChooseColor(image, w, h, auto_convert);
    ghost var px := Pixels(image[..], w * h);
    var raw := Convert(image, mode, w * h);
    converted := raw[..];
    BitsFit(raw, w, h, Bpp(mode));
    var data := PreProcessScanlines(raw, w, h, Bpp(mode), interlace, types);
    lines := data[..];
    SomeLines(lines, RBits(converted), interlace, types, w, h, Bpp(mode));
    defined, error, idat, blocks := Zlib.ZlibCompress(data[..], s);
    if defined { Container(idat, blocks, lines); }
  }

  /** A zlib stream that stands for the lines. */
  ghost predicate Compressed(idat: seq<byte>, blocks: seq<Format.Block>, lines: seq<byte>) {
    && |idat| >= 6 && Zlib.HeaderOk(idat) && Format.Decodable(idat[2..], blocks)
    && Format.StreamData(blocks, |blocks|) == lines
  }

  /** Its checksum is that of the lines. */
  predicate Checked(idat: seq<byte>, lines: seq<byte>) {
    |idat| >= 4 &&
    var n := |idat|;
    65536 * (256 * idat[n - 4] as nat + idat[n - 3] as nat)
    + 256 * idat[n - 2] as nat + idat[n - 1] as nat == Zlib.Adler32(lines)
  }

  lemma Container(idat: seq<byte>, blocks: seq<Format.Block>, lines: seq<byte>)
    requires |idat| >= 6 && idat[0] == 120 && idat[1] == 1
    requires Format.Decodable(idat[2..], blocks) && Format.StreamData(blocks, |blocks|) == lines
    ensures Compressed(idat, blocks, lines)
  {
    hide Format.Decodable, Format.StreamData;
    Zlib.StandardHeader(idat);
  }

  /** An image of n pixels in this mode. */
  ghost predicate IsRaw(converted: seq<byte>, mode: Mode, n: nat) {
    DepthOk(mode) && Room(mode, n, |converted|) && n * Bpp(mode) <= 8 * |converted|
  }

  /** The buffer holds the pixels. */
  ghost predicate Carries(converted: seq<byte>, mode: Mode, px: seq<ColorTree.Color>) {
    IsRaw(converted, mode, |px|) && Holds(mode, converted, px)
  }

  lemma BitsFit(a: array<byte>, w: nat, h: nat, bpp: nat)
    requires w * h * bpp <= 8 * a.Length
    ensures S.Holds(a, w, h, bpp)
  {
    S.ImageBits(w, h, bpp);
  }

  /**
   * lodepng_decode, from the compressed stream of the IDAT chunks on, for the image data of any image in one
   * of the modes: every pixel becomes the colour that it means, unless the checksum or an index is wrong.
   */
  method Decode(idat: seq<byte>, mode: Mode, w: nat, h: nat, interlace: bool, ignore_adler32: bool, fix_png: bool,
                ghost lines: seq<byte>, ghost converted: seq<byte>, ghost blocks: seq<Format.Block>,
                ghost types: seq<seq<byte>>)
    returns (error: nat, out: array<byte>)
    requires w > 0 && h > 0 && IsRaw(converted, mode, w * h) && Compressed(idat, blocks, lines)
    requires IsImageData(lines, RBits(converted), interlace, types, w, h, Bpp(mode))
    ensures fresh(out) && out.Length == 3 * (w * h)
    ensures error == if !ignore_adler32 && !Checked(idat, lines) then 58
                     else if !fix_png && exists i: nat :: i < w * h && BadIndex(mode, converted, w * h, i)
                     then (if mode.bitdepth == 8 then 46 else 47)
                     else 0
    ensures error == 0 ==> forall i | 0 <= i < w * h :: PixelAt(out[..], i) == ColourAt(mode, converted, w * h, i)
  {
    hide RBits, IsImageData, Compressed, Checked, S.Holds, Room, IsRaw, Bpp, BadIndex, ColourAt, PixelAt, Converted;
    var n := w * h;
    out := new byte[3 * n];
    RawParts(converted, mode, n);
    var unpacked := new Inflate.ByteVector();
    error := Unpack(unpacked, idat, ignore_adler32, lines, blocks);
    if error != 0 { return; }
    var scanlines := new byte[|unpacked.data|](i requires 0 <= i < |unpacked.data| reads unpacked => unpacked.data[i]);
    assert scanlines[..] == lines;
    var raw := new byte[RawSize(mode, n)](i => 0);
    AllZero(raw[..]);
    RawFits(mode, raw, w, h);
    error := PostProcessScanlines(raw, scanlines, w, h, Bpp(mode), interlace, RBits(converted), types);
    S.ImageBits(w, h, Bpp(mode));
    forall i: nat | i < n
      ensures ColourAt(mode, raw[..], n, i) == ColourAt(mode, converted, n, i)
      ensures BadIndex(mode, raw[..], n, i) <==> BadIndex(mode, converted, n, i)
    {
      SameMeaning(mode, raw[..], converted, n, i);
    }
    ghost var data := raw[..];
    error := ConvertToRGB8(out, raw, mode, n, fix_png);
    if error == 0 { AllConverted(out[..], mode, data, n); }
  }

  lemma RawParts(converted: seq<byte>, mode: Mode, n: nat)
    requires IsRaw(converted, mode, n)
    ensures DepthOk(mode) && Room(mode, n, |converted|) && n * Bpp(mode) <= 8 * |converted|
  {
  }

  /** The first step: the zlib stream. */
  method Unpack(unpacked: Inflate.ByteVector, idat: seq<byte>, ignore_adler32: bool, ghost lines: seq<byte>,
                ghost blocks: seq<Format.Block>) returns (error: nat)
    requires Compressed(idat, blocks, lines)
    modifies unpacked
    ensures unpacked.data == lines && error == if ignore_adler32 || Checked(idat, lines) then 0 else 58
  {
    hide Format.IsStream, Format.Decodable, Format.StreamData, Zlib.Adler32, Zlib.HeaderOk;
    Zlib.DecodableStream(idat[2..], blocks);
    error := Zlib.ZlibDecompress(unpacked, idat, ignore_adler32, blocks);
  }

  lemma AllZero(data: seq<byte>)
    requires forall i | 0 <= i < |data| :: data[i] == 0
    ensures forall j | 0 <= j < 8 * |data| :: !RBits(data)[j]
  {
    forall j | 0 <= j < 8 * |data| ensures !RBits(data)[j] { ShrZero(7 - j % 8); }
  }

  lemma RawFits(mode: Mode, raw: array<byte>, w: nat, h: nat)
    requires DepthOk(mode) && raw.Length == RawSize(mode, w * h)
    ensures Room(mode, w * h, raw.Length) && S.Holds(raw, w, h, Bpp(mode))
  {
    RawSizeFits(mode, w * h);
    BitsFit(raw, w, h, Bpp(mode));
  }

  lemma CarriedRaw(converted: seq<byte>, mode: Mode, px: seq<ColorTree.Color>)
    requires Carries(converted, mode, px)
    ensures IsRaw(converted, mode, |px|)
  {
  }

  /** What an image held in a lossless mode means is the image. */
  lemma CarriedMeans(converted: seq<byte>, mode: Mode, image: seq<byte>, out: seq<byte>, n: nat)
    requires 3 * n <= |image| && |out| == 3 * n && Lossless(mode, Pixels(image, n))
    requires Carries(converted, mode, Pixels(image, n))
    ensures IsRaw(converted, mode, n) && forall i: nat | i < n :: !BadIndex(mode, converted, n, i)
    ensures (forall i | 0 <= i < n :: PixelAt(out, i) == ColourAt(mode, converted, n, i)) ==> out == image[..3 * n]
  {
    hide Lossless, Pixels, Holds, BadIndex, ColourAt, Room, PixelAt;
    forall i: nat | i < n
      ensures ColourAt(mode, converted, n, i) == PixelAt(image, i) && !BadIndex(mode, converted, n, i)
    {
      HeldIsMeant(mode, converted, image, n, i);
    }
    if forall i | 0 <= i < n :: PixelAt(out, i) == ColourAt(mode, converted, n, i) {
      SamePixels(out, image, n);
      assert out[..3 * n] == out;
    }
  }

  /**
   * The whole chain, for every 8-bit RGB image: choice and conversion of the colours, interlacing, padding,
   * filtering, zlib compression, and all of them undone. The image comes back, with no error.
   */
  method RoundTrip(image: array<byte>, w: nat, h: nat, auto_convert: AutoConvert, interlace: bool,
                   types: seq<seq<byte>>, s: Deflate.Settings, ignore_adler32: bool, fix_png: bool)
    returns (defined: bool, error: nat, out: array<byte>)
    requires w > 0 && h > 0 && 3 * (w * h) <= image.Length && FiltersOk(types, interlace, w, h)
    requires s.btype <= 2 && (s.btype > 0 ==> Deflate.SettingsError(s) == 0)
    ensures (s.btype == 2 ==> s.use_lz77) ==> defined
    ensures defined ==> error == 0 && fresh(out) && out.Length == 3 * (w * h) && out[..] == image[..3 * (w * h)]
  {
    hide *;
    var mode, idat;
    ghost var lines, converted, blocks;
    defined, error, mode, idat, lines, converted, blocks := Encode(image, w, h, auto_convert, interlace, types, s);
    if !defined {
      out := new byte[0];
      return;
    }
    CarriedRaw(converted, mode, Pixels(image[..], w * h));
    error, out := Decode(idat, mode, w, h, interlace, ignore_adler32, fix_png, lines, converted, blocks, types);
    CarriedMeans(converted, mode, image[..], out[..], w * h);
  }
}
