/**
 * Feeding SHA-1 and MD5 piece by piece. The compression functions are parameters: everything here holds
 * for any function from a state and a block of 64 bytes to a state.
 */
module Digest {
  import opened Bits

  const WORD: nat := 0x1_0000_0000

  // ---------------------------------------------------------------- what is computed

  /** The state after the first n blocks of m. */
  ghost function Fold<S>(compress: (S, seq<byte>) -> S, init: S, m: seq<byte>, n: nat): S
    requires 64 * n <= |m|
  {
    if n == 0 then init else compress(Fold(compress, init, m, n - 1), m[64 * n - 64..64 * n])
  }

  lemma {:induction false} FoldPrefix<S>(compress: (S, seq<byte>) -> S, init: S, m: seq<byte>, more: seq<byte>, n: nat)
    requires 64 * n <= |m|
    ensures Fold(compress, init, m + more, n) == Fold(compress, init, m, n)
  {
    if n > 0 {
      FoldPrefix(compress, init, m, more, n - 1);
      assert (m + more)[64 * n - 64..64 * n] == m[64 * n - 64..64 * n];
    }
  }

  function Zeros(n: nat): (s: seq<byte>)
    ensures |s| == n
  {
    seq(n, _ => 0)
  }

  /** The bytes between the message and its length: a one bit and zeros up to 56 modulo 64. */
  function Padding(n: nat): (s: seq<byte>)
    ensures (n + |s|) % 64 == 56 && 0 < |s| <= 64
  {
    [0x80] + Zeros(ZerosFor(n))
  }

  function ZerosFor(n: nat): (k: nat)
    ensures k < 64 && (n + 1 + k) % 64 == 56
  {
    if n % 64 < 56 then 55 - n % 64 else 119 - n % 64
  }

  /** The zeros end at the first position that is 56 modulo 64. */
  lemma ZerosEnd(n: nat, k: nat)
    requires k <= ZerosFor(n)
    ensures (n + 1 + k) % 64 == 56 <==> k == ZerosFor(n)
  {
  }

  lemma BlocksFull(n: nat)
    requires n % 64 == 56
    ensures (n + 8) % 64 == 0
  {
  }

  // ---------------------------------------------------------------- the bit count in two words

  /** The two words hold the number of bits of a message of n bytes, modulo 2^64. */
  predicate Counts(lo: nat, hi: nat, n: nat) {
    lo < WORD && hi < WORD && lo + WORD * hi == 8 * n % (WORD * WORD)
  }

  lemma CountLow(lo: nat, hi: nat, n: nat)
    requires Counts(lo, hi, n)
    ensures lo / 8 % 64 == n % 64
  {
    var q := 8 * n / (WORD * WORD);
    assert 8 * n == lo + WORD * hi + q * (WORD * WORD);
    assert lo == 8 * (n - 0x2000_0000 * hi - 0x2000_0000 * WORD * q);
    var r := n - 0x2000_0000 * hi - 0x2000_0000 * WORD * q;
    assert lo / 8 == r && n == r + 64 * (0x80_0000 * hi + 0x80_0000 * WORD * q);
    ModShift(r, 0x80_0000 * hi + 0x80_0000 * WORD * q);
  }

  lemma ModShift(r: int, k: int)
    ensures (r + 64 * k) % 64 == r % 64
  {
  }

  /** Adding the bits of len bytes as the source does, with the carry seen by comparison. */
  lemma CountAdd(lo: nat, hi: nat, n: nat, len: nat)
    requires Counts(lo, hi, n) && len < WORD
    ensures var lo' := Wrap(lo + Wrap(8 * len));
            Counts(lo', Wrap(Wrap(hi + (if lo' < lo then 1 else 0)) + len / 0x2000_0000), n + len)
  {
    var c, d := Carried(lo, len);
    WrapSum(hi + c, d);
    CountSum(lo, hi, n, len, c, d);
  }

  /** What goes over from the low word to the high one: the carry that is seen by comparison, and the high bits. */
  lemma Carried(lo: nat, len: nat) returns (c: nat, d: nat)
    requires lo < WORD && len < WORD
    ensures var lo' := Wrap(lo + Wrap(8 * len));
            c == (if lo' < lo then 1 else 0) && d == len / 0x2000_0000 && lo' + WORD * (c + d) == lo + 8 * len
  {
    d := len / 0x2000_0000;
    assert 8 * len == Wrap(8 * len) + WORD * d;
    c := if Wrap(lo + Wrap(8 * len)) < lo then 1 else 0;
  }

  lemma CountSum(lo: nat, hi: nat, n: nat, len: nat, c: nat, d: nat)
    requires Counts(lo, hi, n) && lo + 8 * len >= WORD * (c + d) && lo + 8 * len - WORD * (c + d) < WORD
    ensures Counts(lo + 8 * len - WORD * (c + d), Wrap(hi + c + d), n + len)
  {
    var lo', h := lo + 8 * len - WORD * (c + d), hi + c + d;
    var hi', k, q := Wrap(h), h / WORD, 8 * n / (WORD * WORD);
    assert h == hi' + WORD * k;
    assert 8 * n == lo + WORD * hi + (WORD * WORD) * q;
    assert 8 * (n + len) == lo' + WORD * h + (WORD * WORD) * q;
    assert WORD * h + (WORD * WORD) * q == WORD * hi' + (WORD * WORD) * (q + k);
    ModUnique(8 * (n + len), lo' + WORD * hi', q + k);
  }

  lemma ModUnique(x: nat, r: nat, q: int)
    requires r < WORD * WORD && x == r + (WORD * WORD) * q
    ensures x % (WORD * WORD) == r
  {
  }

  /** The update of the two words at the start of SHA1Update and of MD5Update. */
  method AddBits(lo: nat, hi: nat, len: nat, ghost n: nat) returns (lo': nat, hi': nat)
    requires Counts(lo, hi, n) && len < WORD
    ensures Counts(lo', hi', n + len)
  {
    CountAdd(lo, hi, n, len);
    hi' := hi;
    lo' := Wrap(lo + Wrap(8 * len));
    if lo' < lo { hi' := Wrap(hi' + 1); } else { WrapSmall(hi); }
    hi' := Wrap(hi' + len / 0x2000_0000);
  }

  // ---------------------------------------------------------------- both digests

  /** memcpy */
  method Copy(dst: array<byte>, at: nat, src: seq<byte>, from: nat, n: nat)
    requires at + n <= dst.Length && from + n <= |src|
    modifies dst
    ensures dst[..at] == old(dst[..at]) && dst[at..at + n] == src[from..from + n] && dst[at + n..] == old(dst[at + n..])
  {
    for i := 0 to n
      invariant dst[..at] == old(dst[..at]) && dst[at..at + i] == src[from..from + i]
      invariant dst[at + i..] == old(dst[at + i..])
    {
      dst[at + i] := src[from + i];
      assert dst[at..at + i + 1] == dst[at..at + i] + [src[from + i]];
      assert src[from..from + i + 1] == src[from..from + i] + [src[from + i]];
    }
  }

  /** What a context holds after the message m, in whatever pieces it was fed. */
  ghost predicate Holds<S>(compress: (S, seq<byte>) -> S, init: S, m: seq<byte>, state: S, buffer: seq<byte>) {
    && |buffer| == 64
    && state == Fold(compress, init, m, |m| / 64)
    && buffer[..|m| % 64] == m[64 * (|m| / 64)..]
  }

  /** n blocks of the message t have been compressed and i bytes of its last piece are used up. */
  ghost predicate Underway<S>(compress: (S, seq<byte>) -> S, init: S, m: seq<byte>, data: seq<byte>, n: nat, i: nat,
                              state: S) {
    i <= |data| && 64 * n == |m| + i && state == Fold(compress, init, m + data, n)
  }

  lemma DivMod(n: nat, q: nat, r: nat)
    requires n == 64 * q + r && r < 64
    ensures n / 64 == q && n % 64 == r
  {
  }

  /** The piece does not fill the block. */
  lemma HoldsMore<S>(compress: (S, seq<byte>) -> S, init: S, m: seq<byte>, data: seq<byte>, state: S, a: seq<byte>,
                     b: seq<byte>)
    requires Holds(compress, init, m, state, a) && |m| % 64 + |data| < 64 && |b| == 64
    requires b[..|m| % 64] == a[..|m| % 64] && b[|m| % 64..|m| % 64 + |data|] == data
    ensures Holds(compress, init, m + data, state, b)
  {
    var q, j := |m| / 64, |m| % 64;
    DivMod(|m + data|, q, j + |data|);
    FoldPrefix(compress, init, m, data, q);
    assert (m + data)[64 * q..] == m[64 * q..] + data;
    assert b[..j + |data|] == b[..j] + b[j..j + |data|];
  }

  /** The piece fills the block, which is then compressed. */
  lemma HoldsBlock<S>(compress: (S, seq<byte>) -> S, init: S, m: seq<byte>, data: seq<byte>, state: S, a: seq<byte>,
                      b: seq<byte>)
    requires Holds(compress, init, m, state, a) && |m| % 64 + |data| >= 64 && |b| == 64
    requires b[..|m| % 64] == a[..|m| % 64] && b[|m| % 64..] == data[..64 - |m| % 64]
    ensures Underway(compress, init, m, data, |m| / 64 + 1, 64 - |m| % 64, compress(state, b))
  {
    var q, j := |m| / 64, |m| % 64;
    FoldPrefix(compress, init, m, data, q);
    assert b == b[..j] + b[j..];
    assert (m + data)[64 * q..64 * q + 64] == m[64 * q..] + data[..64 - j];
  }

  lemma UnderwayBlock<S>(compress: (S, seq<byte>) -> S, init: S, m: seq<byte>, data: seq<byte>, n: nat, i: nat,
                         state: S)
    requires Underway(compress, init, m, data, n, i, state) && i + 64 <= |data|
    ensures Underway(compress, init, m, data, n + 1, i + 64, compress(state, data[i..i + 64]))
  {
    assert (m + data)[64 * n..64 * n + 64] == data[i..i + 64];
  }

  lemma UnderwayEnd<S>(compress: (S, seq<byte>) -> S, init: S, m: seq<byte>, data: seq<byte>, n: nat, i: nat, state: S,
                       b: seq<byte>)
    requires Underway(compress, init, m, data, n, i, state) && |data| - i < 64 && |b| == 64
    requires b[..|data| - i] == data[i..]
    ensures Holds(compress, init, m + data, state, b)
  {
    DivMod(|m + data|, n, |data| - i);
    assert (m + data)[64 * n..] == data[i..];
  }

  // ---------------------------------------------------------------- SHA-1

  class Sha1Ctx<S> {
    const compress: (S, seq<byte>) -> S
    const init: S
    var state: S
    var count0: nat
    var count1: nat
    const buffer: array<byte>

    /** The message m has been fed. */
    ghost predicate Absorbed(m: seq<byte>)
      reads this, buffer
    {
      buffer.Length == 64 && Counts(count0, count1, |m|) && Holds(compress, init, m, state, buffer[..])
    }

    /** SHA1Init */
    constructor (compress: (S, seq<byte>) -> S, init: S)
      ensures Absorbed([]) && fresh(buffer) && this.compress == compress && this.init == init
    {
      this.compress, this.init, state := compress, init, init;
      count0, count1 := 0, 0;
      buffer := new byte[64](_ => 0);
    }

    /**
     * SHA1Update. However a message is cut into pieces, the context afterwards is the one of the whole
     * message. Behaviour is defined if and only if what the buffer holds and the new piece are together shorter
     * than 2^32 bytes: otherwise their sum wraps, and the source copies the whole piece into the buffer.
     */
    method Update(data: seq<byte>, ghost m: seq<byte>) returns (defined: bool)
      requires Absorbed(m) && |data| < WORD
      modifies this, buffer
      ensures defined <==> |m| % 64 + |data| < WORD
      ensures defined ==> Absorbed(m + data)
    {
      hide Fold, Holds, Underway, Counts;
      var len := |data|;
      CountLow(count0, count1, |m|);
      BufferLength(this, m);
      var j: nat := count0 / 8 % 64;
      count0, count1 := AddBits(count0, count1, len, |m|);
      ghost var b0 := buffer[..];
      defined := j + len < WORD;
      if !defined { return; }
      if j + len > 63 {
        var i := FillBuffer(data, m, j);
        ghost var n;
        i, n := Blocks(data, i, m, |m| / 64 + 1);
        Copy(buffer, 0, data, i, len - i);
        UnderwayEnd(compress, init, m, data, n, i, state, buffer[..]);
      } else {
        Copy(buffer, j, data, 0, len);
        HoldsMore(compress, init, m, data, state, b0, buffer[..]);
      }
    }

    /** The piece fills the buffer. */
    method FillBuffer(data: seq<byte>, ghost m: seq<byte>, j: nat) returns (i: nat)
      requires buffer.Length == 64 && Holds(compress, init, m, state, buffer[..])
      requires j == |m| % 64 && j + |data| >= 64
      modifies this`state, buffer
      ensures i == 64 - j && Underway(compress, init, m, data, |m| / 64 + 1, i, state)
    {
      hide Fold, Holds, Underway;
      ghost var b0 := buffer[..];
      i := 64 - j;
      Copy(buffer, j, data, 0, i);
      assert buffer[..][j..] == buffer[j..j + i] == data[..i] && buffer[..][..j] == b0[..j];
      HoldsBlock(compress, init, m, data, state, b0, buffer[..]);
      state := compress(state, buffer[..]);
    }

    /** The whole blocks of a piece, straight from the piece; the index stays below 2^32. */
    method Blocks(data: seq<byte>, start: nat, ghost m: seq<byte>, ghost n0: nat) returns (i: nat, ghost n: nat)
      requires Underway(compress, init, m, data, n0, start, state) && start <= |data|
      requires |m| % 64 + |data| < WORD && (|m| % 64 + start) % 64 == 0
      modifies this`state
      ensures Underway(compress, init, m, data, n, i, state) && start <= i <= |data| < i + 64 && i + 63 < WORD
    {
      hide Fold, Underway;
      i, n := start, n0;
      IndexFits(|m| % 64, |data|, i);
      while i + 63 < |data|
        invariant Underway(compress, init, m, data, n, i, state) && start <= i <= |data|
        invariant (|m| % 64 + i) % 64 == 0 && i + 63 < WORD
      {
        UnderwayBlock(compress, init, m, data, n, i, state);
        state := compress(state, data[i..i + 64]);
        i := i + 64;
        n := n + 1;
        IndexFits(|m| % 64, |data|, i);
      }
    }
  }

  /** The index of a block, and of the last byte of one that begins there, fits in 32 bits. */
  lemma IndexFits(j: nat, len: nat, i: nat)
    requires i <= len && j + len < WORD && (j + i) % 64 == 0
    ensures i + 63 < WORD
  {
    assert j + i == 64 * ((j + i) / 64) && (j + i) / 64 < 0x400_0000;
  }

  lemma BufferLength<S>(c: Sha1Ctx<S>, m: seq<byte>)
    requires c.Absorbed(m)
    ensures c.buffer.Length == 64 && c.count0 < WORD && c.count1 < WORD
  {
  }

  /** The eight bytes of the bit count, most significant first. */
  function CountBytesBe(lo: uint32, hi: uint32): (s: seq<byte>)
    ensures |s| == 8
  {
    [hi / 0x100_0000, hi / 0x1_0000 % 256, hi / 0x100 % 256, hi % 256,
     lo / 0x100_0000, lo / 0x1_0000 % 256, lo / 0x100 % 256, lo % 256]
  }

  /** Least significant first. */
  function CountBytesLe(lo: uint32, hi: uint32): (s: seq<byte>)
    ensures |s| == 8
  {
    [lo % 256, lo / 0x100 % 256, lo / 0x1_0000 % 256, lo / 0x100_0000,
     hi % 256, hi / 0x100 % 256, hi / 0x1_0000 % 256, hi / 0x100_0000]
  }

  /** The message padded as RFC 3174, section 4, asks for. */
  function PaddedSha1(m: seq<byte>): (s: seq<byte>)
    ensures |s| % 64 == 0
  {
    var bits := 8 * |m| % (WORD * WORD);
    BlocksFull(|m + Padding(|m|)|);
    m + Padding(|m|) + CountBytesBe(bits % WORD, bits / WORD)
  }

  /** What stands between the message and its length: a one bit and then zeros, no more of them than it takes. */
  predicate Padded(m: seq<byte>, p: seq<byte>) {
    && |p| % 64 == 0 && |m| + 9 <= |p| < |m| + 73
    && p[..|m|] == m && p[|m|] == 0x80
    && forall i | |m| < i < |p| - 8 :: p[i] == 0
  }

  /** The number of four bytes, the most significant one first. */
  function Number(a: nat, b: nat, c: nat, d: nat): nat {
    0x100_0000 * a + 0x1_0000 * b + 0x100 * c + d
  }

  /** The last eight bytes are the number of bits, modulo 2^64, as one big-endian number. */
  lemma PaddedSha1Is(m: seq<byte>)
    ensures var p := PaddedSha1(m);
            var n := |p|;
            && Padded(m, p)
            && 0x1_0000_0000 * Number(p[n - 8], p[n - 7], p[n - 6], p[n - 5])
               + Number(p[n - 4], p[n - 3], p[n - 2], p[n - 1]) == 8 * |m| % 0x1_0000_0000_0000_0000
  {
    hide ZerosFor, Number;
    var bits := 8 * |m| % (WORD * WORD);
    FourBytes(bits % WORD);
    FourBytes(bits / WORD);
    assert PaddedSha1(m)[..|m|] == m;
  }

  lemma FourBytes(v: uint32)
    ensures Number(v / 0x100_0000, v / 0x1_0000 % 256, v / 0x100 % 256, v % 256) == v
  {
    var a, b := v / 0x100, v / 0x1_0000;
    assert v == 0x100 * a + v % 256 && a == 0x100 * b + a % 256;
    assert b == v / 0x100 / 0x100 && v / 0x100_0000 == b / 0x100;
  }

  lemma CountWords(lo: nat, hi: nat, n: nat)
    requires Counts(lo, hi, n)
    ensures var bits := 8 * n % (WORD * WORD); lo == bits % WORD && hi == bits / WORD
  {
  }

  /** SHA1Final up to the digest: exactly the blocks of the padded message have been compressed. */
  method Sha1Final<S>(c: Sha1Ctx<S>, ghost m: seq<byte>) returns (state: S)
    requires c.Absorbed(m)
    modifies c, c.buffer
    ensures state == Fold(c.compress, c.init, PaddedSha1(m), |PaddedSha1(m)| / 64)
  {
    hide Fold, Counts, Sha1Ctx.Absorbed, Holds, CountBytesBe, ZerosFor;
    BufferLength(c, m);
    AbsorbedCounts(c, m);
    CountWords(c.count0, c.count1, |m|);
    var finalcount := CountBytesBe(c.count0, c.count1);
    var defined := c.Update([0x80], m);
    ghost var t: seq<byte> := m + [0x80];
    ghost var k: nat := 0;
    AbsorbedCounts(c, t);
    CountLow(c.count0, c.count1, |t|);
    while c.count0 / 8 % 64 * 8 != 448
      invariant c.Absorbed(t) && t == m + [0x80] + Zeros(k) && c.count0 / 8 % 64 == |t| % 64
      invariant k <= ZerosFor(|m|) && |t| == |m| + 1 + k
      decreases ZerosFor(|m|) - k
    {
      ZerosEnd(|m|, k);
      defined := c.Update([0], t);
      t := t + [0];
      k := k + 1;
      assert Zeros(k) == Zeros(k - 1) + [0];
      AbsorbedCounts(c, t);
      CountLow(c.count0, c.count1, |t|);
    }
    ZerosEnd(|m|, k);
    assert t == m + Padding(|m|);
    defined := c.Update(finalcount, t);
    AbsorbedState(c, t + finalcount);
    state := c.state;
  }

  lemma AbsorbedCounts<S>(c: Sha1Ctx<S>, m: seq<byte>)
    requires c.Absorbed(m)
    ensures Counts(c.count0, c.count1, |m|)
  {
  }

  lemma AbsorbedState<S>(c: Sha1Ctx<S>, m: seq<byte>)
    requires c.Absorbed(m)
    ensures c.state == Fold(c.compress, c.init, m, |m| / 64)
  {
  }

  /** Feeding a message in pieces, whichever they are. */
  ghost function Joined(pieces: seq<seq<byte>>): seq<byte> {
    if pieces == [] then [] else Joined(pieces[..|pieces| - 1]) + pieces[|pieces| - 1]
  }

  method Sha1Feed<S>(c: Sha1Ctx<S>, pieces: seq<seq<byte>>) returns (defined: bool)
    requires c.Absorbed([]) && forall i | 0 <= i < |pieces| :: |pieces[i]| < WORD
    modifies c, c.buffer
    ensures defined <==> forall i | 0 <= i < |pieces| :: |Joined(pieces[..i])| % 64 + |pieces[i]| < WORD
    ensures defined ==> c.Absorbed(Joined(pieces))
  {
    hide Sha1Ctx.Absorbed;
    defined := true;
    for i := 0 to |pieces|
      invariant c.Absorbed(Joined(pieces[..i]))
      invariant forall k | 0 <= k < i :: |Joined(pieces[..k])| % 64 + |pieces[k]| < WORD
    {
      assert pieces[..i + 1][..i] == pieces[..i];
      defined := c.Update(pieces[i], Joined(pieces[..i]));
      if !defined { return; }
    }
    assert pieces[..|pieces|] == pieces;
  }

  // ---------------------------------------------------------------- MD5

  class Md5Ctx<S> {
    const compress: (S, seq<byte>) -> S
    const init: S
    var buf: S
    var bits0: nat
    var bits1: nat
    const block: array<byte>

    /** The message m has been fed. */
    ghost predicate Absorbed(m: seq<byte>)
      reads this, block
    {
      block.Length == 64 && Counts(bits0, bits1, |m|) && Holds(compress, init, m, buf, block[..])
    }

    /** MD5Init */
    constructor (compress: (S, seq<byte>) -> S, init: S)
      ensures Absorbed([]) && fresh(block) && this.compress == compress && this.init == init
    {
      this.compress, this.init, buf := compress, init, init;
      bits0, bits1 := 0, 0;
      block := new byte[64](_ => 0);
    }

    /** MD5Update: every block passes through the buffer of the context. */
    method Update(data: seq<byte>, ghost m: seq<byte>)
      requires Absorbed(m) && |data| < WORD
      modifies this, block
      ensures Absorbed(m + data)
    {
      hide Fold, Holds, Underway, Counts;
      CountLow(bits0, bits1, |m|);
      Md5Length(this, m);
      var t: nat := bits0 / 8 % 64;
      bits0, bits1 := AddBits(bits0, bits1, |data|, |m|);
      ghost var b0 := block[..];
      var i: nat := 0;
      ghost var n: nat := |m| / 64;
      if t != 0 {
        if |data| < 64 - t {
          Copy(block, t, data, 0, |data|);
          HoldsMore(compress, init, m, data, buf, b0, block[..]);
          return;
        }
        i := FillBlock(data, m, t);
        n := n + 1;
      } else {
        UnderwayStart(compress, init, m, data, buf, b0);
      }
      i, n := Blocks(data, i, m, n);
      Copy(block, 0, data, i, |data| - i);
      UnderwayEnd(compress, init, m, data, n, i, buf, block[..]);
    }

    /** The piece fills the block that was begun. */
    method FillBlock(data: seq<byte>, ghost m: seq<byte>, t: nat) returns (i: nat)
      requires block.Length == 64 && Holds(compress, init, m, buf, block[..])
      requires t == |m| % 64 && t + |data| >= 64
      modifies this`buf, block
      ensures i == 64 - t && Underway(compress, init, m, data, |m| / 64 + 1, i, buf)
    {
      hide Fold, Holds, Underway;
      ghost var b0 := block[..];
      i := 64 - t;
      Copy(block, t, data, 0, i);
      assert block[..][t..] == block[t..t + i] == data[..i] && block[..][..t] == b0[..t];
      HoldsBlock(compress, init, m, data, buf, b0, block[..]);
      buf := compress(buf, block[..]);
    }

    /** The whole blocks of a piece. */
    method Blocks(data: seq<byte>, start: nat, ghost m: seq<byte>, ghost n0: nat) returns (i: nat, ghost n: nat)
      requires Underway(compress, init, m, data, n0, start, buf) && start <= |data| && block.Length == 64
      modifies this`buf, block
      ensures Underway(compress, init, m, data, n, i, buf) && start <= i <= |data| < i + 64
    {
      hide Fold, Underway;
      i, n := start, n0;
      while |data| - i >= 64
        invariant Underway(compress, init, m, data, n, i, buf) && start <= i <= |data|
      {
        Copy(block, 0, data, i, 64);
        assert block[..] == block[0..64] == data[i..i + 64];
        UnderwayBlock(compress, init, m, data, n, i, buf);
        buf := compress(buf, block[..]);
        i := i + 64;
        n := n + 1;
      }
    }
  }

  lemma UnderwayStart<S>(compress: (S, seq<byte>) -> S, init: S, m: seq<byte>, data: seq<byte>, state: S, b: seq<byte>)
    requires Holds(compress, init, m, state, b) && |m| % 64 == 0
    ensures Underway(compress, init, m, data, |m| / 64, 0, state)
  {
    FoldPrefix(compress, init, m, data, |m| / 64);
  }

  lemma Md5Length<S>(c: Md5Ctx<S>, m: seq<byte>)
    requires c.Absorbed(m)
    ensures c.block.Length == 64 && c.bits0 < WORD && c.bits1 < WORD && Counts(c.bits0, c.bits1, |m|)
    ensures Holds(c.compress, c.init, m, c.buf, c.block[..])
  {
  }

  /** The message padded as RFC 1321, sections 3.1 and 3.2, asks for. */
  function PaddedMd5(m: seq<byte>): (s: seq<byte>)
    ensures |s| % 64 == 0
  {
    var bits := 8 * |m| % (WORD * WORD);
    BlocksFull(|m + Padding(|m|)|);
    m + Padding(|m|) + CountBytesLe(bits % WORD, bits / WORD)
  }

  /** The last eight bytes are the number of bits, modulo 2^64, as one little-endian number. */
  lemma PaddedMd5Is(m: seq<byte>)
    ensures var p := PaddedMd5(m);
            var n := |p|;
            && Padded(m, p)
            && 0x1_0000_0000 * Number(p[n - 1], p[n - 2], p[n - 3], p[n - 4])
               + Number(p[n - 5], p[n - 6], p[n - 7], p[n - 8]) == 8 * |m| % 0x1_0000_0000_0000_0000
  {
    hide ZerosFor, Number;
    var bits := 8 * |m| % (WORD * WORD);
    FourBytes(bits % WORD);
    FourBytes(bits / WORD);
    assert PaddedMd5(m)[..|m|] == m;
  }

  function LengthMd5(m: seq<byte>): (s: seq<byte>)
    ensures |s| == 8
  {
    var bits := 8 * |m| % (WORD * WORD);
    CountBytesLe(bits % WORD, bits / WORD)
  }

  /** The last bytes of the message, its padding and its length. */
  lemma PaddedTail<S>(compress: (S, seq<byte>) -> S, init: S, m: seq<byte>, state: S, b: seq<byte>)
    requires Holds(compress, init, m, state, b)
    ensures var q, p := |m| / 64, PaddedMd5(m);
            && 64 * q <= |p| && Fold(compress, init, p, q) == state
            && p[64 * q..] == b[..|m| % 64] + Padding(|m|) + LengthMd5(m)
  {
    hide CountBytesLe, Padding;
    var x := Padding(|m|) + LengthMd5(m);
    assert PaddedMd5(m) == m + x;
    FoldPrefix(compress, init, m, x, |m| / 64);
  }

  lemma OneBlock<S>(compress: (S, seq<byte>) -> S, init: S, m: seq<byte>, state: S, b0: seq<byte>, b: seq<byte>)
    requires Holds(compress, init, m, state, b0) && |m| % 64 < 56
    requires b == b0[..|m| % 64] + [0x80] + Zeros(55 - |m| % 64) + LengthMd5(m)
    ensures Fold(compress, init, PaddedMd5(m), |PaddedMd5(m)| / 64) == compress(state, b)
  {
    hide PaddedMd5, LengthMd5, Zeros;
    PaddedTail(compress, init, m, state, b0);
    var q, p := |m| / 64, PaddedMd5(m);
    assert Padding(|m|) == [0x80] + Zeros(55 - |m| % 64);
    assert p[64 * q..] == b;
    assert |p| == 64 * (q + 1) && p[64 * q..64 * q + 64] == b;
  }

  lemma TwoBlocks<S>(compress: (S, seq<byte>) -> S, init: S, m: seq<byte>, state: S, b0: seq<byte>, b1: seq<byte>,
                     b2: seq<byte>)
    requires Holds(compress, init, m, state, b0) && |m| % 64 >= 56
    requires b1 == b0[..|m| % 64] + [0x80] + Zeros(63 - |m| % 64) && b2 == Zeros(56) + LengthMd5(m)
    ensures Fold(compress, init, PaddedMd5(m), |PaddedMd5(m)| / 64) == compress(compress(state, b1), b2)
  {
    hide PaddedMd5, LengthMd5;
    PaddedTail(compress, init, m, state, b0);
    var q, p, j := |m| / 64, PaddedMd5(m), |m| % 64;
    assert Padding(|m|) == [0x80] + Zeros(63 - j) + Zeros(56);
    assert p[64 * q..] == b1 + b2;
    assert |p| == 64 * (q + 2) && p[64 * q..64 * q + 64] == b1 && p[64 * q + 64..64 * q + 128] == b2;
    assert Fold(compress, init, p, q + 1) == compress(state, b1);
  }

  /** memset */
  method Clear(dst: array<byte>, at: nat, n: nat)
    requires at + n <= dst.Length
    modifies dst
    ensures dst[..at] == old(dst[..at]) && dst[at..at + n] == Zeros(n) && dst[at + n..] == old(dst[at + n..])
  {
    for i := 0 to n
      invariant dst[..at] == old(dst[..at]) && dst[at..at + i] == Zeros(i)
      invariant dst[at + i..] == old(dst[at + i..])
    {
      dst[at + i] := 0;
      assert dst[at..at + i + 1] == dst[at..at + i] + [0] == Zeros(i + 1);
    }
  }

  /** MD5Final up to the digest: exactly the blocks of the padded message have been compressed. */
  method Md5Final<S>(c: Md5Ctx<S>, ghost m: seq<byte>) returns (state: S)
    requires c.Absorbed(m)
    modifies c, c.block
    ensures state == Fold(c.compress, c.init, PaddedMd5(m), |PaddedMd5(m)| / 64)
  {
    hide Fold, Counts, Md5Ctx.Absorbed, Holds, CountBytesLe, ZerosFor, PaddedMd5;
    Md5Length(c, m);
    CountWords(c.bits0, c.bits1, |m|);
    CountLow(c.bits0, c.bits1, |m|);
    ghost var b0 := c.block[..];
    var count: nat := c.bits0 / 8 % 64;
    c.block[count] := 0x80;
    var p := count + 1;
    count := 64 - 1 - count;
    ghost var j, s0 := |m| % 64, c.buf;
    assert c.block[..p] == b0[..j] + [0x80];
    ghost var b1: seq<byte> := [];
    if count < 8 {
      Clear(c.block, p, count);
      b1 := c.block[..];
      assert b1 == c.block[..p] + c.block[p..p + count];
      c.buf := c.compress(c.buf, c.block[..]);
      Clear(c.block, 0, 56);
    } else {
      Clear(c.block, p, count - 8);
      assert c.block[..56] == c.block[..p] + c.block[p..p + (count - 8)];
    }
    ghost var front := c.block[..56];
    var length := CountBytesLe(c.bits0, c.bits1);
    Copy(c.block, 56, length, 0, 8);
    assert c.block[..] == c.block[..56] + c.block[56..64] == front + length;
    if j < 56 {
      OneBlock(c.compress, c.init, m, s0, b0, c.block[..]);
    } else {
      assert front == Zeros(56);
      TwoBlocks(c.compress, c.init, m, s0, b0, b1, c.block[..]);
    }
    c.buf := c.compress(c.buf, c.block[..]);
    state := c.buf;
  }
}
