/** The zlib container (RFC 1950) with its Adler-32 checksum. */
module Zlib {
  import opened Bits
  import opened BitStream
  import opened Format
  import opened Tokens
  import Deflate
  import Inflate

  const BASE: nat := 65521

  // ---------------------------------------------------------------- the checksum

  /** The two sums of RFC 1950, section 8.2, reduced after every byte. */
  function SumA(a: nat, data: seq<byte>): (s: nat)
    ensures s < BASE
  {
    if data == [] then a % BASE else (SumA(a, data[..|data| - 1]) + data[|data| - 1]) % BASE
  }

  function SumB(a: nat, b: nat, data: seq<byte>): (s: nat)
    ensures s < BASE
  {
    if data == [] then b % BASE else (SumB(a, b, data[..|data| - 1]) + SumA(a, data)) % BASE
  }

  function Adler32(data: seq<byte>): (r: nat)
    ensures r < 0x1_0000_0000
  {
    SumB(1, 0, data) * 65536 + SumA(1, data)
  }

  /** The sum of the bytes, and the sum of all sums on the way there, neither of them reduced. */
  function Total(data: seq<byte>): nat {
    if data == [] then 0 else Total(data[..|data| - 1]) + data[|data| - 1]
  }

  function Totals(data: seq<byte>): nat {
    if data == [] then 0 else Totals(data[..|data| - 1]) + Total(data)
  }

  /** The checksum without any reduction on the way: the low half sums the bytes, the high half their sums. */
  lemma AdlerFormula(data: seq<byte>)
    ensures Adler32(data) == (|data| + Totals(data)) % 65521 * 65536 + (1 + Total(data)) % 65521
  {
    SumsFormula(data);
  }

  lemma {:induction false} SumsFormula(data: seq<byte>)
    ensures SumA(1, data) == (1 + Total(data)) % 65521
    ensures SumB(1, 0, data) == (|data| + Totals(data)) % 65521
  {
    if data != [] {
      var front, x := data[..|data| - 1], data[|data| - 1];
      SumsFormula(front);
      ModPlus(1 + Total(front), x);
      ModPlus(|front| + Totals(front), SumA(1, data));
      ModPlus(1 + Total(data), |front| + Totals(front));
    }
  }

  lemma ModPlus(a: nat, b: nat)
    ensures (a % BASE + b) % BASE == (a + b) % BASE
  {
    Congruent(a % BASE, a, b);
  }

  lemma {:induction false} Totals255(n: nat)
    ensures Total(Bytes255(n)) == 255 * n && 2 * Totals(Bytes255(n)) == 255 * n * (n + 1)
  {
    if n > 0 {
      Totals255(n - 1);
      assert Bytes255(n)[..n - 1] == Bytes255(n - 1);
      assert 255 * (n - 1) * n + 2 * 255 * n == 255 * n * (n + 1);
    }
  }

  function Bytes255(n: nat): (s: seq<byte>)
    ensures |s| == n
  {
    seq(n, _ => 255)
  }

  /** A known checksum, of data that are long enough for both sums to be reduced. */
  lemma KnownChecksum()
    ensures Adler32(Bytes255(300)) == 0xB90F2AE4
  {
    AdlerFormula(Bytes255(300));
    Totals255(300);
  }

  function Add32(a: nat, b: nat): nat {
    (a + b) % 0x1_0000_0000
  }

  lemma Congruent(x: nat, y: nat, z: nat)
    requires x % BASE == y % BASE
    ensures (x + z) % BASE == (y + z) % BASE
  {
    var q, r := x / BASE, y / BASE;
    assert x + z == BASE * q + (x % BASE + z) && y + z == BASE * r + (x % BASE + z);
  }

  /** The largest values that s1 and s2 can have after n more additions. */
  function Bound1(n: nat): nat {
    65535 + 255 * n
  }

  function Bound2(n: nat): nat {
    if n == 0 then 65535 else Bound2(n - 1) + Bound1(n)
  }

  lemma {:induction false} Bound2Is(n: nat)
    ensures 2 * Bound2(n) == 131070 + 131070 * n + 255 * n * (n + 1)
  {
    if n > 0 {
      Bound2Is(n - 1);
      assert 255 * (n - 1) * n + 2 * 255 * n == 255 * n * (n + 1);
    }
  }

  lemma {:induction false} Bound2Mono(n: nat, m: nat)
    requires n <= m
    ensures Bound2(n) <= Bound2(m)
  {
    if n < m { Bound2Mono(n, m - 1); }
  }

  /** 5550 additions from sums of at most 16 bits stay below 2^32, also when the sums are not reduced. */
  lemma NoOverflow(n: nat)
    requires n <= 5550
    ensures Bound1(n) < 0x1_0000_0000 && Bound2(n) < 0x1_0000_0000
  {
    Bound2Is(5550);
    Bound2Mono(n, 5550);
  }

  /** The sums after the bytes data[..i], not yet reduced. */
  ghost predicate Summed(a: nat, b: nat, data: seq<byte>, i: nat, s1: nat, s2: nat) {
    i <= |data| && s1 % BASE == SumA(a, data[..i]) && s2 % BASE == SumB(a, b, data[..i])
  }

  lemma SummedStep(a: nat, b: nat, data: seq<byte>, i: nat, s1: nat, s2: nat)
    requires Summed(a, b, data, i, s1, s2) && i < |data|
    ensures Summed(a, b, data, i + 1, s1 + data[i], s2 + (s1 + data[i]))
  {
    assert data[..i + 1][..i] == data[..i];
    Congruent(s1, SumA(a, data[..i]), data[i]);
    Congruent(s2, SumB(a, b, data[..i]), s1 + data[i]);
    Congruent(s1 + data[i], SumA(a, data[..i + 1]), SumB(a, b, data[..i]));
  }

  /**
   * update_adler32 with its delayed reduction, in 32-bit arithmetic: the same as reducing after every
   * byte. (Only an empty update leaves halves of 65521 and more as they are.)
   */
  method UpdateAdler32(adler: nat, data: seq<byte>) returns (r: nat)
    requires adler < 0x1_0000_0000
    ensures data != [] ==> r == SumB(adler % 65536, adler / 65536, data) * 65536 + SumA(adler % 65536, data)
    ensures data == [] ==> r == adler
  {
    hide SumA, SumB, Bound2;
    ghost var a, b := adler % 65536, adler / 65536;
    var s1: nat, s2: nat := adler % 65536, adler / 65536 % 65536;
    var len: nat := |data|;
    var i: nat := 0;
    SummedStart(a, b, data);
    while len > 0
      invariant i + len == |data| && s1 <= 65535 && s2 <= 65535
      invariant Summed(a, b, data, i, s1, s2)
      invariant if i == 0 then s1 == a && s2 == b else s1 < BASE && s2 < BASE
    {
      s1, s2, i, len := AddChunk(s1, s2, data, i, len, a, b);
    }
    assert data[..i] == data;
    r := s2 * 65536 + s1;
  }

  lemma SummedStart(a: nat, b: nat, data: seq<byte>)
    ensures Summed(a, b, data, 0, a, b)
  {
  }

  /** At most 5550 sums and one reduction. */
  method AddChunk(s10: nat, s20: nat, data: seq<byte>, i0: nat, len0: nat, ghost a: nat, ghost b: nat)
    returns (s1: nat, s2: nat, i: nat, len: nat)
    requires s10 <= 65535 && s20 <= 65535 && i0 + len0 == |data| && len0 > 0
    requires Summed(a, b, data, i0, s10, s20)
    ensures i0 < i && i + len == |data| && s1 < BASE && s2 < BASE
    ensures Summed(a, b, data, i, s1, s2)
  {
    hide Summed;
    var amount: nat := if len0 > 5550 then 5550 else len0;
    len := len0 - amount;
    s1, s2, i := AddAmount(s10, s20, data, i0, amount, a, b);
    SummedReduced(a, b, data, i, s1, s2);
    s1 := s1 % BASE;
    s2 := s2 % BASE;
  }

  lemma SummedReduced(a: nat, b: nat, data: seq<byte>, i: nat, s1: nat, s2: nat)
    requires Summed(a, b, data, i, s1, s2)
    ensures Summed(a, b, data, i, s1 % BASE, s2 % BASE)
  {
  }

  /** The additions, none of which overflows. */
  method AddAmount(s10: nat, s20: nat, data: seq<byte>, i0: nat, amount0: nat, ghost a: nat, ghost b: nat)
    returns (s1: nat, s2: nat, i: nat)
    requires s10 <= 65535 && s20 <= 65535 && i0 + amount0 <= |data| && amount0 <= 5550
    requires Summed(a, b, data, i0, s10, s20)
    ensures i == i0 + amount0 && Summed(a, b, data, i, s1, s2)
  {
    hide Summed;
    s1, s2, i := s10, s20, i0;
    var amount := amount0;
    ghost var n := 0;
    while amount > 0
      invariant i == i0 + n && n + amount == amount0
      invariant s1 <= Bound1(n) && s2 <= Bound2(n)
      invariant Summed(a, b, data, i, s1, s2)
    {
      SummedStep(a, b, data, i, s1, s2);
      NoOverflow(n + 1);
      s1 := Add32(s1, data[i]);
      s2 := Add32(s2, s1);
      i, amount := i + 1, amount - 1;
      n := n + 1;
    }
  }

  /** adler32 */
  method ComputeAdler32(data: seq<byte>) returns (r: nat)
    ensures r == Adler32(data)
  {
    r := UpdateAdler32(1, data);
    assert data == [] ==> Adler32(data) == 1;
  }

  // ---------------------------------------------------------------- the container

  /** lodepng_read32bitInt, most significant byte first */
  function Read32(data: seq<byte>, p: nat): nat {
    0x100_0000 * Inflate.ReadByte(data, p) as nat + 0x1_0000 * Inflate.ReadByte(data, p + 1) as nat
    + 0x100 * Inflate.ReadByte(data, p + 2) as nat + Inflate.ReadByte(data, p + 3) as nat
  }

  /** lodepng_add32bitInt */
  function Bytes32(v: nat): (s: seq<byte>)
    requires v < 0x1_0000_0000
    ensures |s| == 4
  {
    [v / 0x100_0000, v / 0x1_0000 % 256, v / 0x100 % 256, v % 256]
  }

  lemma ReadIs(data: seq<byte>, p: nat)
    requires p + 4 <= |data|
    ensures Read32(data, p) == 65536 * (256 * data[p] as nat + data[p + 1] as nat)
                               + 256 * data[p + 2] as nat + data[p + 3] as nat
  {
  }

  lemma ReadBack32(data: seq<byte>, v: nat)
    requires v < 0x1_0000_0000
    ensures Read32(data + Bytes32(v), |data|) == v
  {
    var s := data + Bytes32(v);
    assert s[|data|] == v / 0x100_0000 && s[|data| + 1] == v / 0x1_0000 % 256 && s[|data| + 2] == v / 0x100 % 256
           && s[|data| + 3] == v % 256;
    assert v / 0x1_0000 == 256 * (v / 0x100_0000) + v / 0x1_0000 % 256;
    assert v / 0x100 == 256 * (v / 0x1_0000) + v / 0x100 % 256;
  }

  /** What follows a stream does not matter, except that an empty last block wants something to follow. */
  lemma StreamExtend(data: seq<byte>, more: seq<byte>, blocks: seq<Block>)
    requires Decodable(data, blocks) && more != []
    ensures Decodable(data + more, blocks)
  {
    hide BlockCoded, BitsOf, At, StreamFits, StreamBits;
    BitsOfConcat(data, more);
    AtExtend(BitsOf(data), BitsOf(more), StreamBits(blocks, |blocks|));
    AtFits(BitsOf(data), 0, StreamBits(blocks, |blocks|));
  }

  lemma AtExtend(s: Bitstring, t: Bitstring, x: Bitstring)
    requires At(s, 0, x)
    ensures At(s + t, 0, x)
  {
  }

  /** lodepng_zlib_compress; deflate is used as it is, without the custom hooks. */
  method ZlibCompress(data: seq<byte>, s: Deflate.Settings)
    returns (defined: bool, error: nat, out: seq<byte>, ghost blocks: seq<Block>)
    ensures defined <==> Deflate.Defined(data, s)
    ensures defined ==> error == if s.btype > 2 then 61 else if s.btype == 0 then 0 else Deflate.SettingsError(s)
    ensures defined && error == 0 ==> |out| >= 6 && out[0] == 120 && out[1] == 1
    ensures defined && error == 0 ==>
              var n := |out|;
              65536 * (256 * out[n - 4] as nat + out[n - 3] as nat)
              + 256 * out[n - 2] as nat + out[n - 1] as nat == Adler32(data)
    ensures defined && error == 0 && (s.btype == 0 ==> data != []) ==>
              Decodable(out[2..], blocks) && StreamData(blocks, |blocks|) == data
    ensures s.btype == 0 && data == [] ==> |out| == 6
  {
    hide IsStream, Decodable, StreamData, Deflate.SettingsError, Adler32, Bytes32;
    var cmf: nat := 120;
    var flevel: nat, fdict: nat := 0, 0;
    var cmfflg: nat := 256 * cmf + fdict * 32 + flevel * 64;
    var fcheck := 31 - cmfflg % 31;
    cmfflg := cmfflg + fcheck;
    out := [];
    out := out + [cmfflg / 256];
    out := out + [cmfflg % 256];
    var deflatedata;
    defined, error, deflatedata, blocks := Deflate.DeflateV(data, s);
    if defined && error == 0 {
      var adler := ComputeAdler32(data);
      out := out + deflatedata;
      out := out + Bytes32(adler);
      assert out[2..] == deflatedata + Bytes32(adler);
      ghost var front := [cmfflg / 256, cmfflg % 256] + deflatedata;
      assert out == front + Bytes32(adler);
      ReadBack32(front, adler);
      ReadIs(out, |front|);
      if s.btype == 0 ==> data != [] {
        StreamExtend(deflatedata, Bytes32(adler), blocks);
      }
    }
  }

  /** The header of RFC 1950, section 2.2, for compression method 8 and without a preset dictionary. */
  predicate HeaderOk(data: seq<byte>) {
    && |data| >= 2 && Check(data) == 0
    && data[0] % 16 == 8 && data[0] / 16 <= 7 && data[1] / 32 % 2 == 0
  }

  function Check(data: seq<byte>): nat
    requires |data| >= 2
  {
    (data[0] as nat * 256 + data[1] as nat) % 31
  }

  /** lodepng_zlib_decompress */
  method ZlibDecompress(out: Inflate.ByteVector, data: seq<byte>, ignore_adler32: bool, ghost blocks: seq<Block>)
    returns (error: nat)
    modifies out
    ensures |data| < 2 ==> error == 53
    ensures |data| >= 2 && Check(data) != 0 ==> error == 24
    ensures |data| >= 2 && Check(data) == 0 && (data[0] % 16 != 8 || data[0] / 16 > 7) ==> error == 25
    ensures |data| >= 2 && Check(data) == 0 && data[0] % 16 == 8 && data[0] / 16 <= 7 && data[1] / 32 % 2 == 1 ==>
              error == 26
    ensures error == 0 ==> HeaderOk(data)
    ensures error == 0 && !ignore_adler32 && |data| >= 4 ==>
              var n := |data|;
              65536 * (256 * data[n - 4] as nat + data[n - 3] as nat)
              + 256 * data[n - 2] as nat + data[n - 1] as nat == Adler32(out.data)
    ensures HeaderOk(data) && |data| >= 4 && IsStream(data[2..], blocks) ==>
              var n := |data|;
              var stored := 65536 * (256 * data[n - 4] as nat + data[n - 3] as nat)
                            + 256 * data[n - 2] as nat + data[n - 1] as nat;
              if !Decodable(data[2..], blocks) then error == 52
              else && out.data == StreamData(blocks, |blocks|)
                   && error == if ignore_adler32 || stored == Adler32(out.data) then 0 else 58
    ensures HeaderOk(data) && |data| == 6 && ReadBit(data[2..], 1) == ReadBit(data[2..], 2) == 0 ==> error == 52
  {
    hide IsStream, Decodable, StreamData, Adler32, Read32, ReadBit;
    if |data| < 2 { return 53; }
    if Check(data) != 0 { return 24; }
    var cm := data[0] % 16;
    var cinfo := data[0] / 16 % 16;
    var fdict := data[1] / 32 % 2;
    if cm != 8 || cinfo > 7 { return 25; }
    if fdict != 0 { return 26; }
    error := Inflate.InflateV(out, data[2..], blocks);
    if error != 0 { return; }
    if !ignore_adler32 {
      // With fewer than four bytes the original would read before its input.
      var stored := Read32(data, if |data| >= 4 then |data| - 4 else 0);
      if |data| >= 4 { ReadIs(data, |data| - 4); }
      var checksum := ComputeAdler32(out.data);
      if checksum != stored { return 58; }
    }
  }

  /**
   * Decompressing what zlib_compress produced gives back the data with no error, with the same
   * exceptions as for deflate itself.
   */
  method RoundTrip(data: seq<byte>, s: Deflate.Settings, ignore_adler32: bool)
    returns (defined: bool, error: nat, back: seq<byte>)
    ensures defined <==> Deflate.Defined(data, s)
    ensures defined ==> error == if s.btype > 2 then 61
                                 else if s.btype == 0 then if data == [] then 52 else 0
                                 else Deflate.SettingsError(s)
    ensures defined && error == 0 ==> back == data
  {
    hide IsStream, Decodable, StreamData, Deflate.SettingsError, Adler32, Read32, Bytes32, HeaderOk;
    var compressed;
    ghost var blocks;
    back := [];
    defined, error, compressed, blocks := ZlibCompress(data, s);
    if !defined || error != 0 { return; }
    StandardHeader(compressed);
    if error == 0 && (s.btype == 0 ==> data != []) { DecodableStream(compressed[2..], blocks); }
    if s.btype == 0 && data == [] { EmptyTail(compressed); }
    var out := new Inflate.ByteVector();
    error := ZlibDecompress(out, compressed, ignore_adler32, blocks);
    back := out.data;
  }

  lemma DecodableStream(data: seq<byte>, blocks: seq<Block>)
    requires Decodable(data, blocks)
    ensures IsStream(data, blocks)
  {
    hide IsStream;
  }

  lemma StandardHeader(data: seq<byte>)
    requires |data| >= 2 && data[0] == 120 && data[1] == 1
    ensures HeaderOk(data)
  {
  }

  /** The checksum of nothing, read as a block, is a stored one that is too short. */
  lemma EmptyTail(compressed: seq<byte>)
    requires |compressed| == 6
    requires 65536 * (256 * compressed[2] as nat + compressed[3] as nat)
             + 256 * compressed[4] as nat + compressed[5] as nat == Adler32([])
    ensures ReadBit(compressed[2..], 1) == ReadBit(compressed[2..], 2) == 0
  {
    assert Adler32([]) == 1;
    assert compressed[2] == 0 && compressed[2..][0] == 0;
    ShrZero(1);
    ShrZero(2);
  }

  /** One zero byte in a stored block, in its container. */
  const STORED_ZERO: seq<byte> := [0x78, 1, 1, 1, 0, 0xfe, 0xff, 0, 0, 1, 0, 1]

  method UnzipKnown() returns (error: nat, data: seq<byte>)
    ensures error == 0 && data == [0]
  {
    hide IsStream, Decodable, StreamData, Adler32, HeaderOk;
    KnownStored();
    KnownHeader();
    var out := new Inflate.ByteVector();
    error := ZlibDecompress(out, STORED_ZERO, false, [Stored([0])]);
    data := out.data;
  }

  lemma KnownHeader()
    ensures HeaderOk(STORED_ZERO) && |STORED_ZERO| == 12 && Adler32([0]) == 65537
    ensures STORED_ZERO[8] == STORED_ZERO[10] == 0 && STORED_ZERO[9] == STORED_ZERO[11] == 1
  {
    AdlerFormula([0]);
  }

  lemma KnownStored()
    ensures var data, blocks := STORED_ZERO[2..], [Stored([0])];
            Decodable(data, blocks) && IsStream(data, blocks) && StreamData(blocks, 1) == [0]
  {
    hide BitsOf, BlockBits;
    var front: seq<byte>, rest: seq<byte>, b := [1, 1, 0, 0xfe, 0xff, 0], [0, 1, 0, 1], Stored([0]);
    Deflate.StoredBlockBits([], [0], true);
    assert [] + [1] + [1 % 256] + [1 / 256] + [65534 % 256] + [65534 / 256] + [0] == front;
    assert BitsOf([]) == [] && BitsOf(front) == BlockBits(0, b, true);
    assert STORED_ZERO[2..] == front + rest;
    BitsOfConcat(front, rest);
    assert StreamBits([b], 0) == [] && StreamBits([b], 1) == BlockBits(0, b, true);
  }
}
