/** The LZ77 encoder: a sliding window searched through hash chains. */
module Lz77 {
  import opened Bits
  import opened Tokens

  // ---------------------------------------------------------------- window positions

  /** A mask of the low k bits. */
  lemma {:induction false} MaskBits(p: nat, k: nat)
    ensures BitAnd(p, Pow2(k) - 1) == Low(p, k)
  {
    if k > 0 && p > 0 {
      MaskBits(p / 2, k - 1);
      assert (Pow2(k) - 1) / 2 == Pow2(k - 1) - 1 && (Pow2(k) - 1) % 2 == 1;
    } else {
      LowSmall(p, k);
    }
  }

  /** The number formed by the k low bits. */
  function Low(p: nat, k: nat): (r: nat)
    ensures r <= p && r < Pow2(k)
  {
    if k == 0 then 0 else p % 2 + 2 * Low(p / 2, k - 1)
  }

  lemma {:induction false} LowSmall(p: nat, k: nat)
    ensures p < Pow2(k) ==> Low(p, k) == p
  {
    if k > 0 { LowSmall(p / 2, k - 1); }
  }

  /** Counting up, the low bits go up by one and wrap around. */
  lemma {:induction false} LowStep(p: nat, k: nat)
    ensures Low(p + 1, k) == if Low(p, k) + 1 == Pow2(k) then 0 else Low(p, k) + 1
  {
    if k > 0 {
      LowStep(p / 2, k - 1);
      if p % 2 == 0 {
        assert (p + 1) / 2 == p / 2;
      } else {
        assert (p + 1) / 2 == p / 2 + 1;
      }
    }
  }

  /** x & (x - 1) clears the lowest bit: nothing is left exactly for a power of two. */
  lemma {:induction false} PowerOfTwoTest(x: nat) returns (k: nat)
    requires x > 0 && BitAnd(x, x - 1) == 0
    ensures x == Pow2(k)
  {
    if x % 2 == 0 {
      assert (x - 1) / 2 == x / 2 - 1 && (x - 1) % 2 == 1;
      k := PowerOfTwoTest(x / 2);
      k := k + 1;
    } else {
      assert (x - 1) / 2 == x / 2;
      AndSelf(x / 2);
      k := 0;
    }
  }

  lemma {:induction false} AndSelf(x: nat)
    ensures BitAnd(x, x) == x
  {
    if x > 0 { AndSelf(x / 2); }
  }

  // ---------------------------------------------------------------- the hash table

  const HASH_BIT_MASK: nat := 65535
  const HASH_NUM_VALUES: nat := 65536

  /** getHash */
  method GetHash(data: seq<byte>, size: nat, pos: nat) returns (result: nat)
    requires size <= |data|
    ensures result < HASH_NUM_VALUES
  {
    result := 0;
    if pos + 2 < size {
      var b0: nat, b1: nat, b2: nat := data[pos], data[pos + 1], data[pos + 2];
      result := BitXor(result, b0);
      result := BitXor(result, b1 * 4);
      result := BitXor(result, b2 * 16);
    } else {
      if pos >= size { return 0; }
      var amount := 3;
      if pos + amount >= size { amount := size - pos; }
      for i := 0 to amount {
        var b: nat := data[pos + i];
        result := BitXor(result, b * Pow2(2 * i));
      }
    }
    result := BitAnd(result, HASH_BIT_MASK);
  }

  /** data[p..p + n] are zeros. */
  ghost predicate ZeroRun(data: seq<byte>, p: int, n: nat) {
    0 <= p && p + n <= |data| && forall k | p <= k < p + n :: data[k] == 0
  }

  /** countZeros */
  method CountZeros(data: seq<byte>, size: nat, pos: nat) returns (n: nat)
    requires pos <= size <= |data|
    ensures ZeroRun(data, pos, n) && pos + n <= size && n <= MAX_SUPPORTED_DEFLATE_LENGTH
  {
    var end := pos + MAX_SUPPORTED_DEFLATE_LENGTH;
    if end > size { end := size; }
    var p := pos;
    while p != end && data[p] == 0
      invariant pos <= p <= end && ZeroRun(data, pos, p - pos)
    {
      p := p + 1;
    }
    n := p - pos;
  }

  /** The last position up to pos that lives in slot x of a window of 2^k slots. */
  function Home(x: int, pos: int, k: nat): int
    requires pos >= 0
  {
    var w := Low(pos, k);
    if x <= w then pos - (w - x) else pos - (w - x + Pow2(k))
  }

  /** numzeros: a run of zeros at pos, no longer than a match may be. */
  ghost predicate NumZerosOk(data: seq<byte>, insize: nat, pos: int, n: nat) {
    n == 0 || (ZeroRun(data, pos, n) && pos + n <= insize && n <= MAX_SUPPORTED_DEFLATE_LENGTH)
  }

  lemma ZeroRunOf(data: seq<byte>, insize: nat, pos: nat, n: nat)
    requires NumZerosOk(data, insize, pos, n) && pos <= |data|
    ensures ZeroRun(data, pos, n)
  {
  }

  /** The run of zeros at pos, from the run at the position before (or at pos itself). */
  method TrackZeros(data: seq<byte>, insize: nat, pos: nat, hashval: nat, before: nat) returns (numzeros: nat)
    requires pos < insize <= |data|
    requires NumZerosOk(data, insize, pos - 1, before) || NumZerosOk(data, insize, pos, before)
    ensures NumZerosOk(data, insize, pos, numzeros)
  {
    numzeros := before;
    if hashval == 0 {
      if numzeros == 0 {
        numzeros := CountZeros(data, insize, pos);
      } else if pos + numzeros >= insize || data[pos + numzeros - 1] != 0 {
        numzeros := numzeros - 1;
      }
    } else {
      numzeros := 0;
    }
  }

  class Hash {
    /** hash value to the slot that was filled last with it, or -1 */
    const head: array<int>
    /** slot to hash value, or -1 */
    const val: array<int>
    /** slot to the previous slot with the same hash value */
    const chain: array<nat>
    /** slot to a number of zeros that follow its position */
    const zeros: array<nat>

    /** hash_init */
    constructor (windowsize: nat)
      ensures fresh(head) && fresh(val) && fresh(chain) && fresh(zeros)
      ensures Shape(windowsize) && Links(0)
    {
      var h := new int[HASH_NUM_VALUES](_ => -1);
      var v := new int[windowsize](_ => -1);
      var c := new nat[windowsize](i requires i >= 0 => i);
      var z := new nat[windowsize];
      head, val, chain, zeros := h, v, c, z;
    }

    ghost predicate Shape(windowsize: nat) {
      && head.Length == HASH_NUM_VALUES
      && val.Length == chain.Length == zeros.Length == windowsize
      && head != val && chain != zeros
    }

    /** The slots of the positions below count have been filled. */
    predicate Written(x: int, count: nat) {
      0 <= x < val.Length && x < count
    }

    /** Heads and chains only lead to filled slots; the other slots are chained to themselves. */
    ghost predicate Links(count: nat)
      reads head, chain
    {
      && val.Length == chain.Length
      && (forall h | 0 <= h < head.Length :: head[h] == -1 || Written(head[h], count))
      && (forall x | 0 <= x < chain.Length :: if x < count then Written(chain[x], count) else chain[x] == x)
    }

    /** In a slot with hash value zero, zeros is a lower bound on the run at its position. */
    ghost predicate Runs(data: seq<byte>, k: nat, count: nat)
      reads val, zeros
    {
      && val.Length == zeros.Length
      && forall x | 0 <= x < val.Length && x < count && val[x] == 0 :: ZeroRun(data, Home(x, count - 1, k), zeros[x])
    }

    ghost predicate Valid(data: seq<byte>, k: nat, count: nat)
      reads head, val, chain, zeros
    {
      Shape(Pow2(k)) && Links(count) && Runs(data, k, count)
    }

    /** updateHashChain */
    method UpdateHashChain(wpos: nat, hashval: nat, ghost count: nat)
      requires hashval < head.Length && wpos < val.Length && Shape(val.Length) && Links(count)
      requires wpos <= count
      modifies head, val, chain
      ensures Links(if wpos < count then count else wpos + 1)
      ensures head[hashval] == wpos && val[wpos] == hashval
      ensures forall x | 0 <= x < val.Length && x != wpos :: val[x] == old(val[x])
    {
      val[wpos] := hashval;
      if head[hashval] != -1 {
        chain[wpos] := head[hashval];
      }
      head[hashval] := wpos;
    }

    /** After a lazy match was tried in vain, its last position is taken back from the heads. */
    method Forget(hashval: nat, ghost data: seq<byte>, ghost k: nat, ghost count: nat)
      requires hashval < HASH_NUM_VALUES && Valid(data, k, count)
      modifies head
      ensures Valid(data, k, count)
    {
      head[hashval] := -1;
    }

    /**
     * What the encoder does for every byte position, in the same way at two places: enter the
     * position into the table and keep track of runs of zeros. After a lazy match was tried in vain
     * the last position is entered a second time.
     */
    method Enter(data: seq<byte>, insize: nat, pos: nat, before: nat, ghost k: nat, ghost count: nat)
      returns (hashval: nat, numzeros: nat)
      requires pos < insize <= |data| && (pos == count || pos + 1 == count) && Valid(data, k, count)
      requires NumZerosOk(data, insize, pos - 1, before) || NumZerosOk(data, insize, pos, before)
      modifies head, val, chain, zeros
      ensures Valid(data, k, pos + 1) && hashval < HASH_NUM_VALUES
      ensures head[hashval] == Low(pos, k)
      ensures NumZerosOk(data, insize, pos, numzeros)
    {
      var wpos := BitAnd(pos, val.Length - 1);
      MaskBits(pos, k);
      assert wpos == Low(pos, k);
      hashval := GetHash(data, insize, pos);
      LowSmall(pos, k);
      UpdateHashChain(wpos, hashval, if pos == count then pos else pos + 1);
      numzeros := TrackZeros(data, insize, pos, hashval, before);
      if hashval == 0 {
        zeros[wpos] := numzeros;
      }
      hide NumZerosOk, ZeroRun, Low;
      assert hashval == 0 ==> ZeroRun(data, pos, numzeros) by { ZeroRunOf(data, insize, pos, numzeros); }
      forall x | 0 <= x < val.Length && x < pos + 1 && val[x] == 0
        ensures ZeroRun(data, Home(x, pos, k), zeros[x])
      {
        HomeStep(x, pos, k);
      }
    }
  }

  /** Moving on by one position gives a new home to one slot only. */
  lemma HomeStep(x: nat, pos: nat, k: nat)
    requires x < Pow2(k) && x <= pos
    ensures Home(Low(pos, k), pos, k) == pos
    ensures pos > 0 && x != Low(pos, k) ==> Home(x, pos, k) == Home(x, pos - 1, k)
  {
    if pos > 0 { LowStep(pos - 1, k); }
  }

  // ---------------------------------------------------------------- searching

  /** A copy that reproduces length bytes of data at p. */
  ghost predicate MatchOk(data: seq<byte>, insize: nat, windowsize: nat, p: nat, length: nat, offset: nat) {
    && 0 < offset <= p && offset < windowsize
    && length <= MAX_SUPPORTED_DEFLATE_LENGTH && p + length <= insize <= |data|
    && forall k | p <= k < p + length :: data[k] == data[k - offset]
  }

  /**
   * The search loop of encodeLZ77: follow the chain of earlier positions with the same hash value
   * and keep the longest match.
   */
  method FindMatch(hash: Hash, data: seq<byte>, insize: nat, pos: nat, hashval: nat, numzeros: nat,
                   windowsize: nat, nicematch: nat, ghost k: nat)
    returns (length: nat, offset: nat)
    requires pos < insize <= |data| && hash.Valid(data, k, pos + 1) && windowsize == Pow2(k)
    requires hashval < HASH_NUM_VALUES && hash.head[hashval] == Low(pos, k)
    requires NumZerosOk(data, insize, pos, numzeros)
    ensures length == 0 || MatchOk(data, insize, windowsize, pos, length, offset)
  {
    var maxchainlength := if windowsize >= 8192 then windowsize else windowsize / 8;
    var wpos := BitAnd(pos, windowsize - 1);
    MaskBits(pos, k);
    LowSmall(pos, k);
    var chainlength := 0;
    length, offset := 0, 0;
    var prevpos: nat := hash.head[hashval];
    var hashpos := hash.chain[prevpos];
    var last := if insize < pos + MAX_SUPPORTED_DEFLATE_LENGTH then insize else pos + MAX_SUPPORTED_DEFLATE_LENGTH;
    while true
      invariant hash.Written(prevpos, pos + 1) && hash.Written(hashpos, pos + 1)
      invariant length == 0 || MatchOk(data, insize, windowsize, pos, length, offset)
      invariant chainlength <= maxchainlength
      decreases maxchainlength - chainlength
    {
      if prevpos < wpos && hashpos > prevpos && hashpos <= wpos { break; }
      if prevpos > wpos && (hashpos <= wpos || hashpos > prevpos) { break; }
      if chainlength >= maxchainlength { break; }
      chainlength := chainlength + 1;

      var current_offset := if hashpos <= wpos then wpos - hashpos else wpos - hashpos + windowsize;
      if current_offset > 0 {
        var current_length := Compare(hash, data, insize, pos, hashval, numzeros, hashpos, current_offset, last, k);
        if current_length > length {
          length, offset := current_length, current_offset;
          if current_length >= nicematch { break; }
        }
      }
      if hashpos == hash.chain[hashpos] { break; }
      prevpos := hashpos;
      hashpos := hash.chain[hashpos];
    }
  }

  /**
   * Compare with one earlier position. A run of zeros on both sides is skipped: zeros is a lower
   * bound on the run there, so no byte that differs is skipped.
   */
  method Compare(hash: Hash, data: seq<byte>, insize: nat, pos: nat, hashval: nat, numzeros: nat,
                 hashpos: nat, offset: nat, last: nat, ghost k: nat)
    returns (length: nat)
    requires pos < insize <= |data| && hash.Valid(data, k, pos + 1) && hash.Written(hashpos, pos + 1)
    requires NumZerosOk(data, insize, pos, numzeros)
    requires 0 < offset && Home(hashpos, pos, k) == pos - offset
    requires last == if insize < pos + MAX_SUPPORTED_DEFLATE_LENGTH then insize else pos + MAX_SUPPORTED_DEFLATE_LENGTH
    ensures MatchOk(data, insize, Pow2(k), pos, length, offset)
    ensures pos + length == last || data[pos + length] != data[pos + length - offset]
  {
    LowSmall(pos, k);
    var fore := pos;
    if hashval == 0 && hash.val[hashpos] == 0 {
      var skip := hash.zeros[hashpos];
      if skip > numzeros { skip := numzeros; }
      fore := fore + skip;
      assert ZeroRun(data, pos - offset, hash.zeros[hashpos]);
      forall q | pos <= q < fore ensures data[q] == data[q - offset] {
        assert data[q - offset] == 0;
      }
    }
    while fore != last && data[fore - offset] == data[fore]
      invariant pos <= fore <= last
      invariant forall q | pos <= q < fore :: data[q] == data[q - offset]
    {
      fore := fore + 1;
    }
    length := fore - pos;
  }

  // ---------------------------------------------------------------- encoding

  /** The tokens so far stand for the input from inpos up to p. */
  ghost predicate Done(data: seq<byte>, inpos: nat, p: nat, tokens: seq<Token>, values: seq<nat>) {
    && inpos <= p <= |data|
    && values == Flatten(tokens)
    && Sensible(data[..inpos], tokens)
    && Expand(data[..inpos], tokens) == data[..p]
  }

  /** All copies reach back less than the window, and are of a length that DEFLATE has. */
  ghost predicate Within(tokens: seq<Token>, windowsize: nat) {
    forall i | 0 <= i < |tokens| && tokens[i].Match? ::
      && TokenOk(tokens[i]) && 1 <= Distance(tokens[i]) < windowsize
      && 3 <= Length(tokens[i]) <= MAX_SUPPORTED_DEFLATE_LENGTH
  }

  /** Where the encoder stands. */
  ghost predicate Made(data: seq<byte>, inpos: nat, p: nat, tokens: seq<Token>, values: seq<nat>, windowsize: nat) {
    Done(data, inpos, p, tokens, values) && Within(tokens, windowsize)
  }

  lemma MadeStart(data: seq<byte>, inpos: nat, windowsize: nat)
    requires inpos <= |data|
    ensures Made(data, inpos, inpos, [], [], windowsize)
  {
  }

  lemma MadeRange(data: seq<byte>, inpos: nat, p: nat, tokens: seq<Token>, values: seq<nat>, windowsize: nat)
    requires Made(data, inpos, p, tokens, values, windowsize)
    ensures inpos <= p <= |data|
  {
  }

  lemma DoneLiteral(data: seq<byte>, inpos: nat, p: nat, tokens: seq<Token>, values: seq<nat>)
    requires Done(data, inpos, p, tokens, values) && p < |data|
    ensures Done(data, inpos, p + 1, tokens + [Literal(data[p])], values + [data[p]])
  {
    hide Expand, Sensible, Flatten;
    ExpandSnoc(data[..inpos], tokens, Literal(data[p]));
    FlattenSnoc(tokens, Literal(data[p]));
  }

  lemma MadeLiteral(data: seq<byte>, inpos: nat, p: nat, tokens: seq<Token>, values: seq<nat>, windowsize: nat)
    requires Made(data, inpos, p, tokens, values, windowsize) && p < |data|
    ensures Made(data, inpos, p + 1, tokens + [Literal(data[p])], values + [data[p]], windowsize)
  {
    hide Done;
    DoneLiteral(data, inpos, p, tokens, values);
  }

  lemma MadeMatch(data: seq<byte>, insize: nat, inpos: nat, p: nat, tokens: seq<Token>, values: seq<nat>,
                  windowsize: nat, t: Token)
    requires Made(data, inpos, p, tokens, values, windowsize) && TokenOk(t) && t.Match? && Length(t) >= 3
    requires MatchOk(data, insize, windowsize, p, Length(t), Distance(t))
    ensures Made(data, inpos, p + Length(t), tokens + [t], values + Numbers(t), windowsize)
  {
    hide Expand, Sensible, Flatten, CopyBytes;
    CopyIsSlice(data, p, Distance(t), Length(t));
    ExpandSnoc(data[..inpos], tokens, t);
    FlattenSnoc(tokens, t);
  }

  /** The positions inside a match are entered into the table as well. */
  method EnterMatch(hash: Hash, data: seq<byte>, insize: nat, start: nat, length: nat, before: nat,
                    ghost k: nat, ghost count: nat)
    returns (pos: nat, numzeros: nat)
    requires 2 < length && start + length <= insize <= |data|
    requires start + 1 <= count <= start + 2 && hash.Valid(data, k, count)
    requires NumZerosOk(data, insize, start, before) || NumZerosOk(data, insize, start + 1, before)
    modifies hash.head, hash.val, hash.chain, hash.zeros
    ensures pos == start + length - 1 && hash.Valid(data, k, pos + 1)
    ensures NumZerosOk(data, insize, pos, numzeros)
  {
    pos, numzeros := start, before;
    ghost var c: nat := count;
    for i := 1 to length
      invariant pos == start + i - 1
      invariant hash.Valid(data, k, c) && (c == pos + 1 || (i == 1 && c == pos + 2))
      invariant NumZerosOk(data, insize, pos, numzeros) || (i == 1 && NumZerosOk(data, insize, pos + 1, numzeros))
    {
      pos := pos + 1;
      var hashval;
      hashval, numzeros := hash.Enter(data, insize, pos, numzeros, k, c);
      c := pos + 1;
    }
  }

  /** Window sizes that the encoder accepts. */
  predicate WindowOk(windowsize: nat) {
    0 < windowsize <= 32768 && BitAnd(windowsize, windowsize - 1) == 0
  }

  /**
   * encodeLZ77. The hash table comes from the blocks before inpos and is left ready for the next one.
   * Whatever the window size, the limits and the lazy matching choice, the tokens expand to the input.
   */
  method EncodeLZ77(hash: Hash, data: seq<byte>, inpos: nat, insize: nat, windowsize: nat,
                    minmatch: nat, nicematch0: nat, lazymatching: bool, ghost k: nat)
    returns (error: nat, values: seq<nat>, ghost tokens: seq<Token>)
    requires inpos <= insize <= |data|
    requires WindowOk(windowsize) ==> windowsize == Pow2(k) && hash.Valid(data, k, inpos)
    modifies hash.head, hash.val, hash.chain, hash.zeros
    ensures error == if windowsize <= 0 || windowsize > 32768 then 60 else if !WindowOk(windowsize) then 90 else 0
    ensures error == 0 ==> Done(data, inpos, insize, tokens, values) && Within(tokens, windowsize)
    ensures error == 0 ==> hash.Valid(data, k, insize)
  {
    error, values, tokens := 0, [], [];
    if windowsize <= 0 || windowsize > 32768 { return 60, values, tokens; }
    if BitAnd(windowsize, windowsize - 1) != 0 { return 90, values, tokens; }
    values, tokens := EncodeFrom(hash, data, inpos, insize, windowsize, minmatch, nicematch0, lazymatching, k);
  }

  /** The loop of encodeLZ77 over the positions. */
  method EncodeFrom(hash: Hash, data: seq<byte>, inpos: nat, insize: nat, windowsize: nat,
                    minmatch: nat, nicematch0: nat, lazymatching: bool, ghost k: nat)
    returns (values: seq<nat>, ghost tokens: seq<Token>)
    requires inpos <= insize <= |data|
    requires windowsize == Pow2(k) <= 32768 && hash.Valid(data, k, inpos)
    modifies hash.head, hash.val, hash.chain, hash.zeros
    ensures Made(data, inpos, insize, tokens, values, windowsize) && hash.Valid(data, k, insize)
  {
    hide Made, MatchOk, NumZerosOk, Hash.Valid, BitAnd, Pow2;
    values, tokens := [], [];
    MadeStart(data, inpos, windowsize);
    NoZeros(data, insize, inpos);
    var maxlazymatch := if windowsize >= 8192 then MAX_SUPPORTED_DEFLATE_LENGTH else 64;
    var nicematch := if nicematch0 > MAX_SUPPORTED_DEFLATE_LENGTH then MAX_SUPPORTED_DEFLATE_LENGTH else nicematch0;
    var pos, numzeros: nat := inpos, 0;
    var lazy := false;
    var lazylength: nat, lazyoffset: nat := 0, 0;
    ghost var count: nat := inpos;
    while pos < insize
      invariant inpos <= pos <= insize && hash.Valid(data, k, count)
      invariant count == pos || (count == pos + 1 && pos < insize && !lazy)
      invariant NumZerosOk(data, insize, pos - 1, numzeros) || NumZerosOk(data, insize, pos, numzeros)
      invariant lazy ==> inpos < pos < insize && lazylength >= 3
                         && MatchOk(data, insize, windowsize, pos - 1, lazylength, lazyoffset)
      invariant Made(data, inpos, if lazy then pos - 1 else pos, tokens, values, windowsize)
      decreases insize - (if lazy then pos - 1 else pos), if lazy then 0 else 1
    {
      var hashval;
      hashval, numzeros := hash.Enter(data, insize, pos, numzeros, k, count);
      count := pos + 1;
      var length, offset := FindMatch(hash, data, insize, pos, hashval, numzeros, windowsize, nicematch, k);

      if lazymatching && !lazy && length >= 3 && length <= maxlazymatch && length < MAX_SUPPORTED_DEFLATE_LENGTH {
        lazy, lazylength, lazyoffset := true, length, offset;
        MatchRoom(data, insize, windowsize, pos, length, offset);
        pos := pos + 1;
        continue;
      }
      values, pos, numzeros, tokens, count :=
        Settle(hash, data, inpos, insize, windowsize, pos, length, offset, lazy, lazylength, lazyoffset, hashval,
               minmatch, values, numzeros, tokens, k);
      lazy := false;
      pos := pos + 1;
    }
  }

  lemma NoZeros(data: seq<byte>, insize: nat, inpos: nat)
    requires inpos <= insize <= |data|
    ensures NumZerosOk(data, insize, inpos, 0)
  {
  }

  /** With a lazy match pending, the better of it and the new match is encoded. */
  method Settle(hash: Hash, data: seq<byte>, ghost inpos: nat, insize: nat, ghost windowsize: nat, start: nat,
                length0: nat, offset0: nat, lazy: bool, lazylength: nat, lazyoffset: nat, hashval: nat, minmatch: nat,
                values0: seq<nat>, before: nat, ghost tokens0: seq<Token>, ghost k: nat)
    returns (values: seq<nat>, pos: nat, numzeros: nat, ghost tokens: seq<Token>, ghost count: nat)
    requires start < insize <= |data| && windowsize <= 32768 && hashval < HASH_NUM_VALUES
    requires hash.Valid(data, k, start + 1) && NumZerosOk(data, insize, start, before)
    requires length0 == 0 || MatchOk(data, insize, windowsize, start, length0, offset0)
    requires lazy ==> inpos < start && lazylength >= 3
                      && MatchOk(data, insize, windowsize, start - 1, lazylength, lazyoffset)
    requires Made(data, inpos, if lazy then start - 1 else start, tokens0, values0, windowsize)
    modifies hash.head, hash.val, hash.chain, hash.zeros
    ensures (if lazy then start - 1 else start) <= pos < insize && hash.Valid(data, k, count)
    ensures count == pos + 1 || (count == pos + 2 && pos + 1 < insize)
    ensures NumZerosOk(data, insize, pos, numzeros) || NumZerosOk(data, insize, pos + 1, numzeros)
    ensures Made(data, inpos, pos + 1, tokens, values, windowsize)
  {
    hide Made, MatchOk, NumZerosOk, Hash.Valid;
    values, pos, tokens := values0, start, tokens0;
    var length, offset := length0, offset0;
    if lazy {
      if length > lazylength + 1 {
        MadeLiteral(data, inpos, pos - 1, tokens, values, windowsize);
        tokens := tokens + [Literal(data[pos - 1])];
        values := values + [data[pos - 1]];
      } else {
        length, offset := lazylength, lazyoffset;
        hash.Forget(hashval, data, k, start + 1);
        pos := pos - 1;
      }
    }
    values, pos, numzeros, tokens, count :=
      Emit(hash, data, inpos, insize, windowsize, pos, length, offset, minmatch, values, before, tokens, k, start + 1);
  }

  /** The position is encoded as a copy, or as a literal byte when a copy is not worth it. */
  method Emit(hash: Hash, data: seq<byte>, ghost inpos: nat, insize: nat, ghost windowsize: nat, start: nat,
              length: nat, offset: nat, minmatch: nat, values0: seq<nat>, before: nat,
              ghost tokens0: seq<Token>, ghost k: nat, ghost count0: nat)
    returns (values: seq<nat>, pos: nat, numzeros: nat, ghost tokens: seq<Token>, ghost count: nat)
    requires start < insize <= |data| && windowsize <= 32768
    requires start + 1 <= count0 <= start + 2 && hash.Valid(data, k, count0)
    requires || NumZerosOk(data, insize, start, before)
             || (count0 == start + 2 && NumZerosOk(data, insize, start + 1, before))
    requires length >= 3 ==> MatchOk(data, insize, windowsize, start, length, offset)
    requires count0 == start + 2 ==> length >= 3
    requires Made(data, inpos, start, tokens0, values0, windowsize)
    modifies hash.head, hash.val, hash.chain, hash.zeros
    ensures start <= pos < insize && hash.Valid(data, k, count)
    ensures count == pos + 1 || (count == pos + 2 && pos + 1 < insize)
    ensures NumZerosOk(data, insize, pos, numzeros) || NumZerosOk(data, insize, pos + 1, numzeros)
    ensures Made(data, inpos, pos + 1, tokens, values, windowsize)
  {
    hide Made, MatchOk, NumZerosOk, Hash.Valid, TokenOk;
    values, pos, numzeros, tokens, count := values0, start, before, tokens0, count0;
    MadeRange(data, inpos, start, tokens, values, windowsize);
    if length >= 3 { MatchRoom(data, insize, windowsize, pos, length, offset); }
    if length < 3 || length < minmatch || (length == 3 && offset > 4096) {
      MadeLiteral(data, inpos, pos, tokens, values, windowsize);
      tokens := tokens + [Literal(data[pos])];
      values := values + [data[pos]];
    } else {
      ghost var t;
      values, t := AddLengthDistance(values, length, offset);
      MadeMatch(data, insize, inpos, pos, tokens, values0, windowsize, t);
      tokens := tokens + [t];
      pos, numzeros := EnterMatch(hash, data, insize, pos, length, numzeros, k, count);
      count := pos + 1;
    }
  }

  lemma MatchRoom(data: seq<byte>, insize: nat, windowsize: nat, p: nat, length: nat, offset: nat)
    requires MatchOk(data, insize, windowsize, p, length, offset)
    ensures p + length <= insize <= |data| && length <= MAX_SUPPORTED_DEFLATE_LENGTH
    ensures 0 < offset <= p && offset < windowsize
  {
  }
}
