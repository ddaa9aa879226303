/**
 * The DEFLATE format (RFC 1951, section 3.2) as a description of bit strings: which bits a block
 * consists of and which bytes it stands for. Neither the encoder nor the decoder is mentioned here.
 */
module Format {
  import opened Bits
  import opened Canonical
  import opened Tokens
  import CL = CodeLengths

  const END_CODE: nat := 256
  const NUM_DEFLATE_CODE_SYMBOLS: nat := 288
  const NUM_DISTANCE_SYMBOLS: nat := 32
  const NUM_CODE_LENGTH_CODES: nat := 19

  /** The order in which the lengths of the code length code are stored. */
  const CLCL_ORDER: seq<nat> := [16, 17, 18, 0, 8, 7, 9, 6, 10, 5, 11, 4, 12, 3, 13, 2, 14, 1, 15]

  // ---------------------------------------------------------------- compressed data

  /** The symbols of a token have codes. */
  predicate Coded(ll: seq<nat>, d: seq<nat>, t: Token) {
    TokenOk(t) &&
    match t
    case Literal(b) => Present(ll, b)
    case Match(lc, _, dc, _) => Present(ll, lc + FIRST_LENGTH_CODE_INDEX) && Present(d, dc)
  }

  predicate AllCoded(ll: seq<nat>, d: seq<nat>, tokens: seq<Token>) {
    forall i | 0 <= i < |tokens| :: Coded(ll, d, tokens[i])
  }

  function TokenBits(ll: seq<nat>, d: seq<nat>, t: Token): Bitstring
    requires Coded(ll, d, t)
  {
    match t
    case Literal(b) => Code(ll, b)
    case Match(lc, le, dc, de) =>
      Code(ll, lc + FIRST_LENGTH_CODE_INDEX) + Lsb(le, LENGTHEXTRA[lc]) + (Code(d, dc) + Lsb(de, DISTANCEEXTRA[dc]))
  }

  function TokensBits(ll: seq<nat>, d: seq<nat>, tokens: seq<Token>): Bitstring
    requires AllCoded(ll, d, tokens)
  {
    if tokens == [] then []
    else TokensBits(ll, d, tokens[..|tokens| - 1]) + TokenBits(ll, d, tokens[|tokens| - 1])
  }

  /** All tokens of a block and the end code. */
  function DataBits(ll: seq<nat>, d: seq<nat>, tokens: seq<Token>): Bitstring
    requires AllCoded(ll, d, tokens) && Present(ll, END_CODE)
  {
    TokensBits(ll, d, tokens) + Code(ll, END_CODE)
  }

  // ---------------------------------------------------------------- code lengths

  function FixedLengths(): (s: seq<nat>)
    ensures |s| == NUM_DEFLATE_CODE_SYMBOLS
  {
    seq(288, i => if i <= 143 then 8 else if i <= 255 then 9 else if i <= 279 then 7 else 8)
  }

  function FixedDistances(): (s: seq<nat>)
    ensures |s| == NUM_DISTANCE_SYMBOLS
  {
    seq(32, _ => 5)
  }

  /** The lengths of the code length code, three bits each. */
  function ClBits(cl: seq<nat>, n: nat): (s: Bitstring)
    requires |cl| == NUM_CODE_LENGTH_CODES && n <= NUM_CODE_LENGTH_CODES
    ensures |s| == 3 * n
  {
    if n == 0 then [] else ClBits(cl, n - 1) + Lsb(cl[CLCL_ORDER[n - 1]], 3)
  }

  predicate OpsCoded(cl: seq<nat>, ops: seq<CL.Op>) {
    forall i | 0 <= i < |ops| :: Present(cl, CL.Symbol(ops[i]))
  }

  function OpBits(cl: seq<nat>, op: CL.Op): Bitstring
    requires Present(cl, CL.Symbol(op))
  {
    Code(cl, CL.Symbol(op)) + Lsb(CL.Extra(op), CL.ExtraBits(op))
  }

  function OpsBits(cl: seq<nat>, ops: seq<CL.Op>): Bitstring
    requires OpsCoded(cl, ops)
  {
    if ops == [] then [] else OpsBits(cl, ops[..|ops| - 1]) + OpBits(cl, ops[|ops| - 1])
  }

  /** Code lengths of the two alphabets with the code length code that transmits them. */
  datatype Trees = Trees(ll: seq<nat>, d: seq<nat>, cl: seq<nat>, hclen: nat, ops: seq<CL.Op>)

  /** The code lengths as the decoder keeps them, one for every symbol that could be used. */
  function PadLl(t: Trees): (s: seq<nat>)
    requires |t.ll| <= NUM_DEFLATE_CODE_SYMBOLS
  {
    t.ll + Zeros(NUM_DEFLATE_CODE_SYMBOLS - |t.ll|)
  }

  function PadD(t: Trees): (s: seq<nat>)
    requires |t.d| <= NUM_DISTANCE_SYMBOLS
  {
    t.d + Zeros(NUM_DISTANCE_SYMBOLS - |t.d|)
  }

  /** The lengths that are not transmitted are zero. */
  predicate ClTail(cl: seq<nat>, hclen: nat)
    requires |cl| == NUM_CODE_LENGTH_CODES
  {
    forall i | hclen <= i < NUM_CODE_LENGTH_CODES :: cl[CLCL_ORDER[i]] == 0
  }

  /** The codes need not be complete, but the decoder's tables have to have room for their nodes. */
  ghost predicate TreesOk(t: Trees) {
    && 257 <= |t.ll| <= 288 && 1 <= |t.d| <= 32
    && |t.cl| == NUM_CODE_LENGTH_CODES && 4 <= t.hclen <= NUM_CODE_LENGTH_CODES
    && ClTail(t.cl, t.hclen)
    && Roomy(t.cl, 7) && Roomy(PadLl(t), 15) && Roomy(PadD(t), 15)
    && CL.OpsOk(t.ops) && CL.ExpandOps(t.ops) == t.ll + t.d && OpsCoded(t.cl, t.ops)
    && Present(t.ll, END_CODE)
  }

  function TreesBits(t: Trees): Bitstring
    requires TreesOk(t)
  {
    Lsb(|t.ll| - 257, 5) + (Lsb(|t.d| - 1, 5) + (Lsb(t.hclen - 4, 4) + (ClBits(t.cl, t.hclen) + OpsBits(t.cl, t.ops))))
  }

  // ---------------------------------------------------------------- blocks

  datatype Block =
    | Stored(data: seq<byte>)
    | Fixed(tokens: seq<Token>)
    | Dynamic(trees: Trees, tokens: seq<Token>)

  ghost predicate BlockCoded(b: Block) {
    match b
    case Stored(data) => |data| <= 65535
    case Fixed(tokens) => AllCoded(FixedLengths(), FixedDistances(), tokens)
    case Dynamic(t, tokens) => TreesOk(t) && AllCoded(t.ll, t.d, tokens)
  }

  /** What a block adds makes sense after the bytes before it. */
  predicate BlockFits(out: seq<byte>, b: Block) {
    b.Stored? || Sensible(out, b.tokens)
  }

  function BlockData(out: seq<byte>, b: Block): seq<byte>
    requires BlockFits(out, b)
  {
    if b.Stored? then out + b.data else Expand(out, b.tokens)
  }

  /** Bits to the next byte boundary. */
  function Padding(p: nat): (s: Bitstring)
    ensures (p + |s|) % 8 == 0 && |s| < 8
  {
    seq((8 - p % 8) % 8, _ => false)
  }

  /** The bits of a block that starts at bit position p. */
  function BlockBits(p: nat, b: Block, final: bool): Bitstring
    requires BlockCoded(b)
  {
    match b
    case Stored(data) =>
      [final, false, false] +
      (Padding(p + 3) + (Lsb(|data|, 16) + Lsb(65535 - |data|, 16) + BitsOf(data)))
    case Fixed(tokens) =>
      FixedCodesEnd();
      [final, true, false] + DataBits(FixedLengths(), FixedDistances(), tokens)
    case Dynamic(t, tokens) =>
      [final, false, true] + (TreesBits(t) + DataBits(t.ll, t.d, tokens))
  }

  lemma FixedCodesEnd()
    ensures Present(FixedLengths(), END_CODE)
  {
  }

  /** The first n of a sequence of blocks; the last block of all is marked final. */
  function StreamBits(blocks: seq<Block>, n: nat): Bitstring
    requires n <= |blocks| && forall i | 0 <= i < |blocks| :: BlockCoded(blocks[i])
  {
    if n == 0 then []
    else
      var front := StreamBits(blocks, n - 1);
      front + BlockBits(|front|, blocks[n - 1], n == |blocks|)
  }

  predicate StreamFits(blocks: seq<Block>, n: nat)
    requires n <= |blocks|
    decreases n, 0
  {
    n == 0 || (StreamFits(blocks, n - 1) && BlockFits(StreamData(blocks, n - 1), blocks[n - 1]))
  }

  function StreamData(blocks: seq<Block>, n: nat): seq<byte>
    requires n <= |blocks| && StreamFits(blocks, n)
    decreases n, 1
  {
    if n == 0 then [] else BlockData(StreamData(blocks, n - 1), blocks[n - 1])
  }

  /** data starts with a DEFLATE stream of these blocks. */
  ghost predicate IsStream(data: seq<byte>, blocks: seq<Block>) {
    && blocks != []
    && (forall i | 0 <= i < |blocks| :: BlockCoded(blocks[i]))
    && StreamFits(blocks, |blocks|)
    && At(BitsOf(data), 0, StreamBits(blocks, |blocks|))
  }

  /** The same, but where the last block is an empty stored one, something has to follow it. */
  ghost predicate Decodable(data: seq<byte>, blocks: seq<Block>) {
    && IsStream(data, blocks)
    && (blocks[|blocks| - 1] == Stored([]) ==> |StreamBits(blocks, |blocks|)| < 8 * |data|)
  }

  // ---------------------------------------------------------------- facts about the format

  lemma {:induction false} TokensAt(t: Bitstring, p: nat, ll: seq<nat>, d: seq<nat>, tokens: seq<Token>, i: nat)
    requires AllCoded(ll, d, tokens) && At(t, p, TokensBits(ll, d, tokens)) && i < |tokens|
    ensures At(t, p + |TokensBits(ll, d, tokens[..i])|, TokenBits(ll, d, tokens[i]))
    decreases |tokens|
  {
    hide TokenBits, At, Coded;
    var n := |tokens| - 1;
    AtConcat(t, p, TokensBits(ll, d, tokens[..n]), TokenBits(ll, d, tokens[n]));
    if i < n {
      TokensAt(t, p, ll, d, tokens[..n], i);
      assert tokens[..n][..i] == tokens[..i];
    }
  }

  lemma TokensBitsStep(ll: seq<nat>, d: seq<nat>, tokens: seq<Token>, i: nat)
    requires AllCoded(ll, d, tokens) && i < |tokens|
    ensures TokensBits(ll, d, tokens[..i + 1]) == TokensBits(ll, d, tokens[..i]) + TokenBits(ll, d, tokens[i])
  {
    assert tokens[..i + 1][..i] == tokens[..i];
  }

  lemma {:induction false} OpsAt(t: Bitstring, p: nat, cl: seq<nat>, ops: seq<CL.Op>, i: nat)
    requires OpsCoded(cl, ops) && At(t, p, OpsBits(cl, ops)) && i < |ops|
    ensures At(t, p + |OpsBits(cl, ops[..i])|, OpBits(cl, ops[i]))
    decreases |ops|
  {
    hide OpBits, At;
    var n := |ops| - 1;
    AtConcat(t, p, OpsBits(cl, ops[..n]), OpBits(cl, ops[n]));
    if i < n {
      OpsAt(t, p, cl, ops[..n], i);
      assert ops[..n][..i] == ops[..i];
    }
  }

  lemma OpsBitsStep(cl: seq<nat>, ops: seq<CL.Op>, i: nat)
    requires OpsCoded(cl, ops) && i < |ops|
    ensures OpsBits(cl, ops[..i + 1]) == OpsBits(cl, ops[..i]) + OpBits(cl, ops[i])
  {
    assert ops[..i + 1][..i] == ops[..i];
  }

  lemma {:induction false} ClAt(t: Bitstring, p: nat, cl: seq<nat>, n: nat, i: nat)
    requires |cl| == NUM_CODE_LENGTH_CODES && i < n <= NUM_CODE_LENGTH_CODES && At(t, p, ClBits(cl, n))
    ensures At(t, p + 3 * i, Lsb(cl[CLCL_ORDER[i]], 3))
    decreases n
  {
    AtConcat(t, p, ClBits(cl, n - 1), Lsb(cl[CLCL_ORDER[n - 1]], 3));
    if i < n - 1 { ClAt(t, p, cl, n - 1, i); }
  }

  /**
   * The order without its table: the three repeat codes, zero, and then the lengths from 8 up and from 7 down in
   * turn, as the middle ones are the likely ones.
   */
  lemma OrderIs(i: nat)
    requires i < NUM_CODE_LENGTH_CODES
    ensures CLCL_ORDER[i] == if i < 3 then 16 + i else if i == 3 then 0
                             else if i % 2 == 0 then 6 + i / 2 else (19 - i) / 2
  {
  }

  /** Field i of the stored lengths, three bits wide, is that of this symbol. */
  lemma ClFields(cl: seq<nat>, n: nat, i: nat)
    requires |cl| == NUM_CODE_LENGTH_CODES && i < n <= NUM_CODE_LENGTH_CODES
    ensures var s := if i < 3 then 16 + i else if i == 3 then 0 else if i % 2 == 0 then 6 + i / 2 else (19 - i) / 2;
            At(ClBits(cl, n), 3 * i, Lsb(cl[s], 3))
  {
    hide ClBits, Lsb;
    OrderIs(i);
    assert At(ClBits(cl, n), 0, ClBits(cl, n));
    ClAt(ClBits(cl, n), 0, cl, n, i);
  }

  lemma TreesSizes(t: Trees)
    requires TreesOk(t)
    ensures 257 <= |t.ll| <= 288 && 1 <= |t.d| <= 32 && 4 <= t.hclen <= NUM_CODE_LENGTH_CODES == |t.cl|
    ensures |t.ll| - 257 < Pow2(5) && |t.d| - 1 < Pow2(5) && t.hclen - 4 < Pow2(4)
    ensures OpsCoded(t.cl, t.ops) && CL.OpsOk(t.ops) && CL.ExpandOps(t.ops) == t.ll + t.d
    ensures Roomy(t.cl, 7) && Roomy(PadLl(t), 15) && Roomy(PadD(t), 15) && PadLl(t)[END_CODE] == t.ll[END_CODE] > 0
  {
    SmallPowers();
  }

  lemma TreesForm(t: Trees)
    requires TreesOk(t)
    ensures TreesBits(t) == Lsb(|t.ll| - 257, 5) + (Lsb(|t.d| - 1, 5) + (Lsb(t.hclen - 4, 4) +
                              (ClBits(t.cl, t.hclen) + OpsBits(t.cl, t.ops))))
  {
    hide Lsb, ClBits, OpsBits, CL.OpsOk, CL.ExpandOps, Roomy;
  }

  // ---------------------------------------------------------------- the fixed codes are complete

  lemma {:induction false} FixedKraft(m: nat)
    requires m <= 288
    ensures Bounded(FixedLengths(), 15)
    ensures Kraft(FixedLengths()[..m], 15) ==
            if m <= 144 then 128 * m
            else if m <= 256 then 18432 + 64 * (m - 144)
            else if m <= 280 then 25600 + 256 * (m - 256)
            else 31744 + 128 * (m - 280)
  {
    if m > 0 {
      FixedKraft(m - 1);
      assert FixedLengths()[..m][..m - 1] == FixedLengths()[..m - 1];
      SmallPowers();
    }
  }

  lemma {:induction false} FixedDistanceKraft(m: nat)
    requires m <= 32
    ensures Bounded(FixedDistances(), 15)
    ensures Kraft(FixedDistances()[..m], 15) == 1024 * m
  {
    if m > 0 {
      FixedDistanceKraft(m - 1);
      assert FixedDistances()[..m][..m - 1] == FixedDistances()[..m - 1];
      SmallPowers();
    }
  }

  lemma FixedComplete()
    ensures Complete(FixedLengths(), 15) && Complete(FixedDistances(), 15)
    ensures Roomy(FixedLengths(), 15) && Roomy(FixedDistances(), 15)
  {
    FixedKraft(288);
    FixedDistanceKraft(32);
    assert FixedLengths()[..288] == FixedLengths() && FixedDistances()[..32] == FixedDistances();
    SmallPowers();
    FewInternalNodes(FixedLengths(), 15);
    FewInternalNodes(FixedDistances(), 15);
  }

  /** How many of the first m fixed lengths are l. */
  lemma {:induction false} FixedCount(m: nat, l: nat)
    requires m <= 288
    ensures Count(FixedLengths()[..m], l) ==
            if l == 7 then (if m <= 256 then 0 else if m <= 280 then m - 256 else 24)
            else if l == 8 then (if m <= 144 then m else if m <= 280 then 144 else m - 136)
            else if l == 9 then (if m <= 144 then 0 else if m <= 256 then m - 144 else 112)
            else 0
  {
    if m > 0 {
      FixedCount(m - 1, l);
      assert FixedLengths()[..m][..m - 1] == FixedLengths()[..m - 1];
    }
  }

  /** The fixed codes of RFC 1951, 3.2.6, for literals, end of block and lengths. */
  lemma FixedCodes(n: nat)
    requires n < 288
    ensures Code(FixedLengths(), n) ==
            if n <= 143 then Msb(0x30 + n, 8)
            else if n <= 255 then Msb(0x190 + (n - 144), 9)
            else if n <= 279 then Msb(n - 256, 7)
            else Msb(0xC0 + (n - 280), 8)
  {
    hide FixedLengths, Count, Msb;
    FixedLength(n);
    FixedCount(n, FixedLengths()[n]);
    FixedFirst();
  }

  lemma FixedLength(n: nat)
    requires n < 288
    ensures FixedLengths()[n] == if n <= 143 then 8 else if n <= 255 then 9 else if n <= 279 then 7 else 8
  {
  }

  lemma FixedFirst()
    ensures First(FixedLengths(), 7) == 0 && First(FixedLengths(), 8) == 0x30 && First(FixedLengths(), 9) == 0x190
  {
    hide FixedLengths, Count;
    var s := FixedLengths();
    assert s[..288] == s;
    for l := 1 to 7
      invariant First(s, l) == 0
    {
      FixedCount(288, l);
    }
    FixedCount(288, 7);
    FixedCount(288, 8);
  }

  /** Distances have codes of five bits, which are their numbers. */
  lemma FixedDistanceCodes(n: nat)
    requires n < 32
    ensures Code(FixedDistances(), n) == Msb(n, 5)
  {
    hide Msb;
    FiveCount(n);
    for l := 1 to 5
      invariant First(FixedDistances(), l) == 0
    {
      NotFive(32, l);
    }
    NotFive(32, 4);
  }

  lemma {:induction false} FiveCount(m: nat)
    requires m <= 32
    ensures Count(FixedDistances()[..m], 5) == m
  {
    if m > 0 {
      FiveCount(m - 1);
      assert FixedDistances()[..m][..m - 1] == FixedDistances()[..m - 1];
    }
  }

  lemma {:induction false} NotFive(m: nat, l: nat)
    requires m <= 32 && l != 5
    ensures Count(FixedDistances()[..m], l) == 0 && FixedDistances()[..32] == FixedDistances()
  {
    if m > 0 {
      NotFive(m - 1, l);
      assert FixedDistances()[..m][..m - 1] == FixedDistances()[..m - 1];
    }
  }

  /** Every token that can be written has codes in the fixed alphabets. */
  lemma FixedCoded(tokens: seq<Token>)
    requires forall i | 0 <= i < |tokens| :: TokenOk(tokens[i])
    ensures AllCoded(FixedLengths(), FixedDistances(), tokens)
  {
  }

  // ---------------------------------------------------------------- absent symbols at the end

  function Zeros(n: nat): (s: seq<nat>)
    ensures |s| == n
  {
    CL.Copies(0, n)
  }

  lemma {:induction false} PadCount(lens: seq<nat>, n: nat, l: nat)
    requires l > 0
    ensures Count(lens + Zeros(n), l) == Count(lens, l)
  {
    if n == 0 {
      assert lens + Zeros(0) == lens;
    } else {
      var s := lens + Zeros(n);
      assert s[..|s| - 1] == lens + Zeros(n - 1);
      PadCount(lens, n - 1, l);
    }
  }

  lemma {:induction false} PadFirst(lens: seq<nat>, n: nat, l: nat)
    ensures First(lens + Zeros(n), l) == First(lens, l)
  {
    if l > 1 {
      PadFirst(lens, n, l - 1);
      PadCount(lens, n, l - 1);
    }
  }

  /** Lengths that are left off at the end of an alphabet do not change the codes. */
  lemma PadCode(lens: seq<nat>, n: nat, s: nat)
    requires Present(lens, s)
    ensures Present(lens + Zeros(n), s) && Code(lens + Zeros(n), s) == Code(lens, s)
  {
    PadFirst(lens, n, lens[s]);
    assert (lens + Zeros(n))[..s] == lens[..s];
  }

  lemma {:induction false} PadKraft(lens: seq<nat>, n: nat, L: nat)
    requires Bounded(lens, L)
    ensures Bounded(lens + Zeros(n), L) && Kraft(lens + Zeros(n), L) == Kraft(lens, L)
  {
    if n == 0 {
      assert lens + Zeros(0) == lens;
    } else {
      var s := lens + Zeros(n);
      assert s[..|s| - 1] == lens + Zeros(n - 1);
      PadKraft(lens, n - 1, L);
    }
  }

  /** The codes of the encoder are complete, so the decoder has room for them. */
  lemma CompleteTrees(t: Trees)
    requires |t.ll| <= NUM_DEFLATE_CODE_SYMBOLS && |t.d| <= NUM_DISTANCE_SYMBOLS
    requires Complete(t.cl, 7) && Complete(t.ll, 15) && Complete(t.d, 15)
    ensures Roomy(t.cl, 7) && Roomy(PadLl(t), 15) && Roomy(PadD(t), 15)
  {
    hide Roomy;
    PadKraft(t.ll, NUM_DEFLATE_CODE_SYMBOLS - |t.ll|, 15);
    PadKraft(t.d, NUM_DISTANCE_SYMBOLS - |t.d|, 15);
    FewInternalNodes(t.cl, 7);
    FewInternalNodes(PadLl(t), 15);
    FewInternalNodes(PadD(t), 15);
  }

  /** RFC 1951, 3.2.7: a single distance is coded by one bit, and no distance at all by none. */
  lemma FlatDistances(t: Trees)
    requires |t.d| <= NUM_DISTANCE_SYMBOLS && Feasible(t.d, 15) && Bounded(t.d, 1)
    ensures Roomy(PadD(t), 15)
  {
    PadKraft(t.d, NUM_DISTANCE_SYMBOLS - |t.d|, 15);
    FlatRoomy(PadD(t), 15);
  }
}
