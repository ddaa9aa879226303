/** The DEFLATE decoder. */
module Inflate {
  import opened Bits
  import opened BitStream
  import opened Canonical
  import opened Huffman
  import opened Tokens
  import opened Format
  import CL = CodeLengths

  /** The growing output buffer; bytes gained by resizing have no particular value. */
  class ByteVector {
    var data: seq<byte>

    constructor ()
      ensures data == []
    {
      data := [];
    }

    /** ucvector_resize */
    method Resize(size: nat)
      modifies this
      ensures |data| == size
      ensures forall n: nat | n <= size && n <= |old(data)| :: data[..n] == old(data)[..n]
    {
      if size > |data| {
        data := data + seq(size - |data|, _ => 0);
      } else {
        data := data[..size];
      }
    }

    /** out->data[pos] = b, for a position that exists. */
    method Put(pos: nat, b: byte)
      requires pos < |data|
      modifies this
      ensures data == old(data)[pos := b]
    {
      data := data[pos := b];
    }
  }

  // ---------------------------------------------------------------- trees

  /** generateFixedLitLenTree */
  method GenerateFixedLitLenTree(tree: HuffmanTree)
    modifies tree
    ensures tree.numcodes == NUM_DEFLATE_CODE_SYMBOLS && tree.tree2d.Length == 2 * tree.numcodes
    ensures tree.Encodes(FixedLengths()) && tree.Decodes(FixedLengths())
    ensures fresh(tree.lengths) && fresh(tree.tree1d) && fresh(tree.tree2d)
  {
    var bitlen := new nat[NUM_DEFLATE_CODE_SYMBOLS](_ => 0);
    for i := 0 to 144
      invariant forall k | 0 <= k < i :: bitlen[k] == 8
    {
      bitlen[i] := 8;
    }
    for i := 144 to 256
      invariant forall k | 0 <= k < i :: bitlen[k] == FixedLengths()[k]
    {
      bitlen[i] := 9;
    }
    for i := 256 to 280
      invariant forall k | 0 <= k < i :: bitlen[k] == FixedLengths()[k]
    {
      bitlen[i] := 7;
    }
    for i := 280 to 288
      invariant forall k | 0 <= k < i :: bitlen[k] == FixedLengths()[k]
    {
      bitlen[i] := 8;
    }
    assert bitlen[..] == FixedLengths();
    FixedComplete();
    hide FixedLengths;
    var error := tree.MakeFromLengths(bitlen[..], 15);
  }

  /** generateFixedDistanceTree */
  method GenerateFixedDistanceTree(tree: HuffmanTree)
    modifies tree
    ensures tree.numcodes == NUM_DISTANCE_SYMBOLS && tree.tree2d.Length == 2 * tree.numcodes
    ensures tree.Encodes(FixedDistances()) && tree.Decodes(FixedDistances())
    ensures fresh(tree.lengths) && fresh(tree.tree1d) && fresh(tree.tree2d)
  {
    var bitlen := new nat[NUM_DISTANCE_SYMBOLS](_ => 0);
    for i := 0 to NUM_DISTANCE_SYMBOLS
      invariant forall k | 0 <= k < i :: bitlen[k] == 5
    {
      bitlen[i] := 5;
    }
    assert bitlen[..] == FixedDistances();
    FixedComplete();
    var error := tree.MakeFromLengths(bitlen[..], 15);
  }

  // ---------------------------------------------------------------- reading the code lengths

  /** The lengths read so far, spread over the two arrays of the decoder. */
  ghost predicate Spread(ll: seq<nat>, d: seq<nat>, hlit: nat, lens: seq<nat>) {
    && |ll| == NUM_DEFLATE_CODE_SYMBOLS && |d| == NUM_DISTANCE_SYMBOLS
    && (forall x | 0 <= x < |ll| :: ll[x] == if x < hlit && x < |lens| then lens[x] else 0)
    && (forall x | 0 <= x < |d| :: d[x] == if hlit + x < |lens| then lens[hlit + x] else 0)
  }

  lemma SpreadAll(ll: seq<nat>, d: seq<nat>, a: seq<nat>, b: seq<nat>)
    requires Spread(ll, d, |a|, a + b) && |a| <= |ll| && |b| <= |d|
    ensures ll == a + Zeros(|ll| - |a|) && d == b + Zeros(|d| - |b|)
  {
  }

  /** Sets the length number i. */
  method SetLength(bitlen_ll: array<nat>, bitlen_d: array<nat>, hlit: nat, i: nat, value: nat, ghost lens: seq<nat>)
    requires bitlen_ll != bitlen_d && Spread(bitlen_ll[..], bitlen_d[..], hlit, lens)
    requires hlit <= NUM_DEFLATE_CODE_SYMBOLS && i < hlit + NUM_DISTANCE_SYMBOLS && i == |lens|
    modifies bitlen_ll, bitlen_d
    ensures Spread(bitlen_ll[..], bitlen_d[..], hlit, lens + [value])
  {
    if i < hlit {
      bitlen_ll[i] := value;
    } else {
      bitlen_d[i - hlit] := value;
    }
  }

  /** The loop behind each of the codes 16, 17 and 18; `code` is its error for too many lengths. */
  method RepeatLength(bitlen_ll: array<nat>, bitlen_d: array<nat>, hlit: nat, total: nat, start: nat, value: nat,
                      replength: nat, code: nat, ghost lens: seq<nat>)
    returns (error: nat, i: nat, ghost more: seq<nat>)
    requires bitlen_ll != bitlen_d && Spread(bitlen_ll[..], bitlen_d[..], hlit, lens)
    requires hlit <= NUM_DEFLATE_CODE_SYMBOLS && total <= hlit + NUM_DISTANCE_SYMBOLS
    requires start == |lens| < total && replength > 0 && code > 0
    requires value <= 15 && Bounded(lens, 15)
    modifies bitlen_ll, bitlen_d
    ensures start < i == |more| <= total && Spread(bitlen_ll[..], bitlen_d[..], hlit, more) && Bounded(more, 15)
    ensures error == 0 || error == code
    ensures error == 0 <==> start + replength <= total
    ensures error == 0 ==> more == lens + CL.Copies(value, replength)
  {
    i, more, error := start, lens, 0;
    for n := 0 to replength
      invariant i == start + n == |more| <= total && error == 0
      invariant Spread(bitlen_ll[..], bitlen_d[..], hlit, more) && Bounded(more, 15)
      invariant more == lens + CL.Copies(value, n)
    {
      if i >= total {
        error := code;
        break;
      }
      SetLength(bitlen_ll, bitlen_d, hlit, i, value, more);
      more := more + [value];
      i := i + 1;
    }
  }

  lemma {:induction false} ExpandPrefix(ops: seq<CL.Op>, k: nat)
    requires CL.OpsOk(ops) && k <= |ops|
    ensures CL.OpsOk(ops[..k])
    ensures |CL.ExpandOps(ops[..k])| <= |CL.ExpandOps(ops)|
    ensures k < |ops| ==> |CL.ExpandOps(ops[..k])| < |CL.ExpandOps(ops)|
    decreases |ops|
  {
    if k == |ops| {
      assert ops[..k] == ops;
    } else {
      var front := ops[..|ops| - 1];
      assert front[..k] == ops[..k];
      ExpandPrefix(front, k);
    }
  }

  lemma OpsStep(ops: seq<CL.Op>, k: nat)
    requires CL.OpsOk(ops) && k < |ops|
    ensures CL.OpOk(CL.ExpandOps(ops[..k]), ops[k])
    ensures CL.ExpandOps(ops[..k + 1]) == CL.ExpandOps(ops[..k]) + CL.Meaning(CL.ExpandOps(ops[..k]), ops[k])
    ensures |CL.ExpandOps(ops[..k + 1])| <= |CL.ExpandOps(ops)|
  {
    hide CL.OpOk, CL.Meaning, CL.OpsOk, CL.ExpandOps;
    ExpandPrefix(ops, k + 1);
    assert ops[..k + 1] == ops[..k] + [ops[k]];
    CL.ExpandSnoc(ops[..k], ops[k]);
  }

  /** The reader stands before operation k of the transmitted code lengths. */
  ghost predicate Reading(data: seq<byte>, start: nat, cl: seq<nat>, ops: seq<CL.Op>, k: nat, bp: nat, lens: seq<nat>) {
    && CL.OpsOk(ops) && OpsCoded(cl, ops) && k <= |ops|
    && At(BitsOf(data), start, OpsBits(cl, ops))
    && bp == start + |OpsBits(cl, ops[..k])|
    && lens == CL.ExpandOps(ops[..k])
  }

  lemma ReadingOp(data: seq<byte>, start: nat, cl: seq<nat>, ops: seq<CL.Op>, k: nat, bp: nat, lens: seq<nat>)
    requires Reading(data, start, cl, ops, k, bp, lens) && k < |ops|
    ensures var s := CL.Symbol(ops[k]);
            Present(cl, s)
            && At(BitsOf(data), bp, Code(cl, s))
            && At(BitsOf(data), bp + cl[s], Lsb(CL.Extra(ops[k]), CL.ExtraBits(ops[k])))
            && CL.OpOk(lens, ops[k])
            && CL.Extra(ops[k]) < Pow2(CL.ExtraBits(ops[k]))
            && Reading(data, start, cl, ops, k + 1, bp + cl[s] + CL.ExtraBits(ops[k]), lens + CL.Meaning(lens, ops[k]))
            && |lens + CL.Meaning(lens, ops[k])| <= |CL.ExpandOps(ops)|
  {
    hide At, OpsBits, CL.ExpandOps, CL.OpsOk, CL.Meaning, Code, Pow2, Lsb, BitsOf;
    OpsAt(BitsOf(data), start, cl, ops, k);
    OpsBitsStep(cl, ops, k);
    OpsStep(ops, k);
    AtConcat(BitsOf(data), bp, Code(cl, CL.Symbol(ops[k])), Lsb(CL.Extra(ops[k]), CL.ExtraBits(ops[k])));
    ExtraFits(lens, ops[k]);
  }

  lemma ExtraFits(lens: seq<nat>, op: CL.Op)
    requires CL.OpOk(lens, op)
    ensures CL.Extra(op) < Pow2(CL.ExtraBits(op))
  {
    SmallPowers();
  }

  lemma ReadingEnd(data: seq<byte>, start: nat, cl: seq<nat>, ops: seq<CL.Op>, k: nat, bp: nat, lens: seq<nat>)
    requires Reading(data, start, cl, ops, k, bp, lens)
    ensures |lens| <= |CL.ExpandOps(ops)|
    ensures |lens| < |CL.ExpandOps(ops)| <==> k < |ops|
    ensures |lens| == |CL.ExpandOps(ops)| ==> lens == CL.ExpandOps(ops) && bp == start + |OpsBits(cl, ops)|
  {
    ExpandPrefix(ops, k);
    if k == |ops| { assert ops[..k] == ops; }
  }

  /** Bits read after a code that was found. */
  method ReadExtra(data: seq<byte>, bp: nat, nbits: nat, ghost ok: bool, ghost v: nat) returns (r: nat, next: nat)
    requires ok ==> At(BitsOf(data), bp, Lsb(v, nbits)) && v < Pow2(nbits)
    ensures next == bp + nbits && r < Pow2(nbits)
    ensures ok ==> r == v
  {
    r, next := ReadBits(bp, data, nbits);
    if ok { ReadBackLsb(data, bp, v, nbits); }
  }

  /** The part of getTreeInflateDynamic that reads the code lengths of both alphabets. */
  method ReadCodeLengths(tree_cl: HuffmanTree, data: seq<byte>, start: nat, hlit: nat, hdist: nat,
                         bitlen_ll: array<nat>, bitlen_d: array<nat>, ghost cl: seq<nat>, ghost ops: seq<CL.Op>)
    returns (error: nat, bp: nat)
    requires bitlen_ll != bitlen_d && Spread(bitlen_ll[..], bitlen_d[..], hlit, [])
    requires bitlen_ll != tree_cl.tree2d && bitlen_d != tree_cl.tree2d
    requires tree_cl.tree2d.Length == 2 * tree_cl.numcodes && tree_cl.numcodes == NUM_CODE_LENGTH_CODES
    requires 0 < hlit <= NUM_DEFLATE_CODE_SYMBOLS && hdist <= NUM_DISTANCE_SYMBOLS
    modifies bitlen_ll, bitlen_d
    ensures bp >= start && Bounded(bitlen_ll[..], 15) && Bounded(bitlen_d[..], 15)
    ensures tree_cl.Decodes(cl) && Feasible(cl, 7) && Reading(data, start, cl, ops, 0, start, []) &&
            |CL.ExpandOps(ops)| == hlit + hdist ==>
              error == 0 && bp == start + |OpsBits(cl, ops)|
              && Spread(bitlen_ll[..], bitlen_d[..], hlit, CL.ExpandOps(ops))
  {
    hide At, OpsBits, CL.ExpandOps, CL.OpsOk, CL.Meaning, Code, Pow2, Lsb, BitsOf, Table, Feasible, Reading,
         HuffmanTree.Decodes;
    ghost var ok := tree_cl.Decodes(cl) && Feasible(cl, 7) && Reading(data, start, cl, ops, 0, start, []) &&
                    |CL.ExpandOps(ops)| == hlit + hdist;
    error, bp := 0, start;
    var i: nat, total := 0, hlit + hdist;
    ghost var k: nat, lens: seq<nat> := 0, [];
    while i < total && error == 0
      invariant start <= bp && i == |lens| <= total
      invariant Spread(bitlen_ll[..], bitlen_d[..], hlit, lens) && Bounded(lens, 15)
      invariant tree_cl.Decodes(cl) == old(tree_cl.Decodes(cl))
      invariant ok ==> error == 0 && Reading(data, start, cl, ops, k, bp, lens)
      decreases total - i, if error == 0 then 1 else 0
    {
      if ok {
        ReadingEnd(data, start, cl, ops, k, bp, lens);
        ReadingOp(data, start, cl, ops, k, bp, lens);
      }
      error, i, bp, lens := ReadOne(tree_cl, data, bp, hlit, total, i, bitlen_ll, bitlen_d, ok, cl,
                                    if ok then ops[k] else CL.Single(0), lens);
      k := k + 1;
    }
    if ok { ReadingEnd(data, start, cl, ops, k, bp, lens); }
  }

  /** The length before the one at hand, in either alphabet. */
  method PreviousLength(bitlen_ll: array<nat>, bitlen_d: array<nat>, hlit: nat, i: nat, ghost lens: seq<nat>)
    returns (value: nat)
    requires Spread(bitlen_ll[..], bitlen_d[..], hlit, lens) && 0 < i == |lens|
    requires hlit <= NUM_DEFLATE_CODE_SYMBOLS && i <= hlit + NUM_DISTANCE_SYMBOLS
    ensures value == lens[i - 1]
  {
    value := if i < hlit + 1 then bitlen_ll[i - 1] else bitlen_d[i - hlit - 1];
  }

  /** One code of the code length alphabet and what it asks for. */
  method ReadOne(tree_cl: HuffmanTree, data: seq<byte>, start: nat, hlit: nat, total: nat, first: nat,
                 bitlen_ll: array<nat>, bitlen_d: array<nat>,
                 ghost ok: bool, ghost cl: seq<nat>, ghost op: CL.Op, ghost before: seq<nat>)
    returns (error: nat, i: nat, bp: nat, ghost lens: seq<nat>)
    requires bitlen_ll != bitlen_d && Spread(bitlen_ll[..], bitlen_d[..], hlit, before) && Bounded(before, 15)
    requires bitlen_ll != tree_cl.tree2d && bitlen_d != tree_cl.tree2d
    requires tree_cl.tree2d.Length == 2 * tree_cl.numcodes && tree_cl.numcodes == NUM_CODE_LENGTH_CODES
    requires 0 < hlit <= NUM_DEFLATE_CODE_SYMBOLS && total <= hlit + NUM_DISTANCE_SYMBOLS
    requires first == |before| < total
    requires ok ==> tree_cl.Decodes(cl) && Feasible(cl, 7) && Present(cl, CL.Symbol(op))
                    && At(BitsOf(data), start, Code(cl, CL.Symbol(op)))
                    && At(BitsOf(data), start + cl[CL.Symbol(op)], Lsb(CL.Extra(op), CL.ExtraBits(op)))
                    && CL.OpOk(before, op) && CL.Extra(op) < Pow2(CL.ExtraBits(op))
                    && |before + CL.Meaning(before, op)| <= total
    modifies bitlen_ll, bitlen_d
    ensures start <= bp && i == |lens| <= total && (error == 0 ==> first < i)
    ensures first <= i
    ensures Spread(bitlen_ll[..], bitlen_d[..], hlit, lens) && Bounded(lens, 15)
    ensures ok ==> error == 0 && bp == start + cl[CL.Symbol(op)] + CL.ExtraBits(op)
                   && lens == before + CL.Meaning(before, op)
  {
    hide Spread, BitsOf, Code, Feasible, Pow2;
    var inbitlength := 8 * |data|;
    error, i, bp, lens := 0, first, start, before;
    var code;
    code, bp := tree_cl.DecodeSymbol(data, bp, cl, 7, CL.Symbol(op));
    if code <= 15 {
      SetLength(bitlen_ll, bitlen_d, hlit, i, code, lens);
      lens := lens + [code];
      i := i + 1;
    } else if code == 16 {
      if bp >= inbitlength { error := 50; return; }
      if i == 0 { error := 54; return; }
      var extra;
      extra, bp := ReadExtra(data, bp, 2, ok, CL.Extra(op));
      var value := PreviousLength(bitlen_ll, bitlen_d, hlit, i, lens);
      error, i, lens := RepeatLength(bitlen_ll, bitlen_d, hlit, total, i, value, 3 + extra, 13, lens);
    } else if code == 17 {
      if bp >= inbitlength { error := 50; return; }
      var extra;
      extra, bp := ReadExtra(data, bp, 3, ok, CL.Extra(op));
      error, i, lens := RepeatLength(bitlen_ll, bitlen_d, hlit, total, i, 0, 3 + extra, 14, lens);
    } else if code == 18 {
      if bp >= inbitlength { error := 50; return; }
      var extra;
      extra, bp := ReadExtra(data, bp, 7, ok, CL.Extra(op));
      error, i, lens := RepeatLength(bitlen_ll, bitlen_d, hlit, total, i, 0, 11 + extra, 15, lens);
    } else if code == BAD_SYMBOL {
      error := if bp > inbitlength then 10 else 11;
    } else {
      // Error 16, which can never happen.
      assert false;
    }
  }

  /** The place of a symbol in the order of the code length codes. */
  function ClclRank(x: nat): (k: nat)
    requires x < NUM_CODE_LENGTH_CODES
  {
    [3, 17, 15, 13, 11, 9, 7, 5, 4, 6, 8, 10, 12, 14, 16, 18, 0, 1, 2][x]
  }

  /** The order is a permutation of the symbols. */
  lemma OrderOnce()
    ensures |CLCL_ORDER| == NUM_CODE_LENGTH_CODES
    ensures forall x: nat | x < NUM_CODE_LENGTH_CODES :: ClclRank(x) < NUM_CODE_LENGTH_CODES
    ensures forall k: nat, x: nat | k < NUM_CODE_LENGTH_CODES && x < NUM_CODE_LENGTH_CODES ::
              ClclRank(x) == k <==> CLCL_ORDER[k] == x
    ensures forall k: nat | k < NUM_CODE_LENGTH_CODES :: CLCL_ORDER[k] < NUM_CODE_LENGTH_CODES
  {
  }

  /** The part of getTreeInflateDynamic that reads the lengths of the code length code. */
  method ReadClLengths(data: seq<byte>, start: nat, hclen: nat, ghost t: Trees)
    returns (bitlen_cl: array<nat>, bp: nat)
    requires hclen <= NUM_CODE_LENGTH_CODES
    ensures fresh(bitlen_cl) && bitlen_cl.Length == NUM_CODE_LENGTH_CODES && Bounded(bitlen_cl[..], 7)
    ensures bp == start + 3 * hclen
    ensures TreesOk(t) && t.hclen == hclen && At(BitsOf(data), start, ClBits(t.cl, hclen)) ==> bitlen_cl[..] == t.cl
  {
    hide TreesOk, ClclRank, CLCL_ORDER, Pow2, BitsOf, At;
    OrderOnce();
    if TreesOk(t) { ClLengthsOk(t); }
    ghost var ok := TreesOk(t) && t.hclen == hclen && At(BitsOf(data), start, ClBits(t.cl, hclen));
    SmallPowers();
    bitlen_cl, bp := new nat[NUM_CODE_LENGTH_CODES], start;
    for i := 0 to NUM_CODE_LENGTH_CODES
      invariant bp == start + 3 * (if i < hclen then i else hclen)
      invariant forall x: nat | x < NUM_CODE_LENGTH_CODES && ClclRank(x) < i ::
        bitlen_cl[x] <= 7 && (ok ==> bitlen_cl[x] == t.cl[x])
    {
      if i < hclen {
        var length;
        if ok { ClAt(BitsOf(data), start, t.cl, hclen, i); }
        length, bp := ReadExtra(data, bp, 3, ok, if ok then t.cl[CLCL_ORDER[i]] else 0);
        bitlen_cl[CLCL_ORDER[i]] := length;
      } else {
        bitlen_cl[CLCL_ORDER[i]] := 0;
      }
    }
  }

  lemma ClLengthsOk(t: Trees)
    requires TreesOk(t)
    ensures |t.cl| == NUM_CODE_LENGTH_CODES && Bounded(t.cl, 7) && ClTail(t.cl, t.hclen)
  {
    hide ClTail;
  }

  /** The description of the trees of a block stands at p. */
  ghost predicate TreesAt(data: seq<byte>, p: nat, t: Trees) {
    TreesOk(t) && At(BitsOf(data), p, TreesBits(t))
  }

  lemma TreesLength(data: seq<byte>, p: nat, t: Trees)
    requires TreesAt(data, p, t)
    ensures |TreesBits(t)| == 14 + 3 * t.hclen + |OpsBits(t.cl, t.ops)|
  {
    hide Lsb, ClBits, OpsBits, OpsCoded, CL.OpsOk, CL.ExpandOps, Roomy;
  }

  /** Where the parts of the description of the trees stand. */
  lemma CountsAt(data: seq<byte>, p: nat, t: Trees)
    requires TreesAt(data, p, t)
    ensures At(BitsOf(data), p, Lsb(|t.ll| - 257, 5))
    ensures At(BitsOf(data), p + 5, Lsb(|t.d| - 1, 5))
    ensures At(BitsOf(data), p + 10, Lsb(t.hclen - 4, 4))
  {
    hide At, Lsb, ClBits, OpsBits, OpsCoded, TreesOk, CL.OpsOk, CL.ExpandOps, Roomy, Pow2, BitsOf, TreesBits;
    TreesSizes(t);
    TreesForm(t);
    FiveParts(BitsOf(data), p, Lsb(|t.ll| - 257, 5), Lsb(|t.d| - 1, 5), Lsb(t.hclen - 4, 4),
              ClBits(t.cl, t.hclen), OpsBits(t.cl, t.ops));
  }

  lemma ClBitsAt(data: seq<byte>, p: nat, t: Trees)
    requires TreesAt(data, p, t)
    ensures At(BitsOf(data), p + 14, ClBits(t.cl, t.hclen))
  {
    hide At, Lsb, ClBits, OpsBits, OpsCoded, TreesOk, CL.OpsOk, CL.ExpandOps, Roomy, Pow2, BitsOf, TreesBits;
    TreesSizes(t);
    TreesForm(t);
    FiveParts(BitsOf(data), p, Lsb(|t.ll| - 257, 5), Lsb(|t.d| - 1, 5), Lsb(t.hclen - 4, 4),
              ClBits(t.cl, t.hclen), OpsBits(t.cl, t.ops));
  }

  lemma OpsBitsAt(data: seq<byte>, p: nat, t: Trees)
    requires TreesAt(data, p, t)
    ensures At(BitsOf(data), p + 14 + 3 * t.hclen, OpsBits(t.cl, t.ops))
    ensures p + 14 + 3 * t.hclen + |OpsBits(t.cl, t.ops)| <= 8 * |data|
  {
    hide At, Lsb, ClBits, OpsBits, OpsCoded, TreesOk, CL.OpsOk, CL.ExpandOps, Roomy, Pow2, BitsOf, TreesBits;
    TreesSizes(t);
    TreesForm(t);
    FiveParts(BitsOf(data), p, Lsb(|t.ll| - 257, 5), Lsb(|t.d| - 1, 5), Lsb(t.hclen - 4, 4),
              ClBits(t.cl, t.hclen), OpsBits(t.cl, t.ops));
  }

  lemma FiveParts(s: Bitstring, p: nat, a: Bitstring, b: Bitstring, c: Bitstring, d: Bitstring, e: Bitstring)
    requires At(s, p, a + (b + (c + (d + e))))
    ensures At(s, p, a) && At(s, p + |a|, b) && At(s, p + |a| + |b|, c)
    ensures At(s, p + |a| + |b| + |c|, d) && At(s, p + |a| + |b| + |c| + |d|, e)
    ensures p + |a| + |b| + |c| + |d| + |e| <= |s|
  {
    AtFits(s, p, a + (b + (c + (d + e))));
    hide At;
    AtConcat(s, p, a, b + (c + (d + e)));
    AtConcat(s, p + |a|, b, c + (d + e));
    AtConcat(s, p + |a| + |b|, c, d + e);
    AtConcat(s, p + |a| + |b| + |c|, d, e);
  }

  lemma TreesReading(data: seq<byte>, p: nat, t: Trees)
    requires TreesAt(data, p, t)
    ensures Reading(data, p + 14 + 3 * t.hclen, t.cl, t.ops, 0, p + 14 + 3 * t.hclen, [])
  {
    OpsBitsAt(data, p, t);
    TreesSizes(t);
  }

  /** The trees are ready for use, with codes for all symbols of the two alphabets. */
  twostate predicate TreesMade(tree_ll: HuffmanTree, tree_d: HuffmanTree)
    reads tree_ll, tree_d
  {
    && fresh(tree_ll.tree2d) && tree_ll.numcodes == NUM_DEFLATE_CODE_SYMBOLS
    && tree_ll.tree2d.Length == 2 * tree_ll.numcodes
    && fresh(tree_d.tree2d) && tree_d.numcodes == NUM_DISTANCE_SYMBOLS
    && tree_d.tree2d.Length == 2 * tree_d.numcodes
  }

  /** The trees decode the codes of a dynamic block. */
  ghost predicate TreesDecode(tree_ll: HuffmanTree, tree_d: HuffmanTree, t: Trees)
    reads tree_ll, tree_ll.tree2d, tree_d, tree_d.tree2d
  {
    && |t.ll| <= NUM_DEFLATE_CODE_SYMBOLS && tree_ll.Decodes(PadLl(t))
    && |t.d| <= NUM_DISTANCE_SYMBOLS && tree_d.Decodes(PadD(t))
  }

  lemma TreesRoomy(t: Trees)
    requires TreesOk(t)
    ensures Roomy(PadLl(t), 15) && Roomy(PadD(t), 15) && Roomy(t.cl, 7)
    ensures Feasible(PadLl(t), 15) && Feasible(PadD(t), 15) && Feasible(t.cl, 7)
  {
  }

  lemma SpreadNone(ll: seq<nat>, d: seq<nat>, hlit: nat)
    requires ll == Zeros(NUM_DEFLATE_CODE_SYMBOLS) && d == Zeros(NUM_DISTANCE_SYMBOLS)
    ensures Spread(ll, d, hlit, [])
  {
  }

  lemma SpreadTrees(ll: seq<nat>, d: seq<nat>, t: Trees)
    requires TreesOk(t) && Spread(ll, d, |t.ll|, CL.ExpandOps(t.ops))
    ensures |t.ll| <= NUM_DEFLATE_CODE_SYMBOLS && ll == PadLl(t)
    ensures |t.d| <= NUM_DISTANCE_SYMBOLS && d == PadD(t)
  {
    SpreadAll(ll, d, t.ll, t.d);
  }

  /** The code that the code lengths are written in. */
  method ReadClTree(data: seq<byte>, start: nat, hclen: nat, ghost t: Trees)
    returns (error: nat, bp: nat, tree_cl: HuffmanTree)
    requires hclen <= NUM_CODE_LENGTH_CODES
    ensures bp == start + 3 * hclen
    ensures fresh(tree_cl.tree2d)
    ensures error == 0 ==> tree_cl.numcodes == NUM_CODE_LENGTH_CODES && tree_cl.tree2d.Length == 2 * tree_cl.numcodes
    ensures TreesOk(t) && t.hclen == hclen && At(BitsOf(data), start, ClBits(t.cl, hclen)) ==>
              error == 0 && tree_cl.Decodes(t.cl)
  {
    if TreesOk(t) { TreesRoomy(t); TreesSizes(t); }
    hide TreesOk, At, Pow2, BitsOf, Roomy, Feasible, ClBits, HuffmanTree.Decodes, HuffmanTree.Encodes;
    tree_cl := new HuffmanTree();
    var bitlen_cl;
    bitlen_cl, bp := ReadClLengths(data, start, hclen, t);
    error := tree_cl.MakeFromLengths(bitlen_cl[..], 7);
  }

  /** HLIT, HDIST and HCLEN, with their offsets added. */
  method ReadCounts(data: seq<byte>, start: nat, ghost t: Trees) returns (hlit: nat, hdist: nat, hclen: nat, bp: nat)
    ensures 257 <= hlit <= NUM_DEFLATE_CODE_SYMBOLS && 1 <= hdist <= NUM_DISTANCE_SYMBOLS
    ensures 4 <= hclen <= NUM_CODE_LENGTH_CODES
    ensures bp == start + 14
    ensures TreesAt(data, start, t) ==> hlit == |t.ll| && hdist == |t.d| && hclen == t.hclen
  {
    ghost var ok := TreesAt(data, start, t);
    if ok {
      CountsAt(data, start, t);
      TreesSizes(t);
    }
    hide TreesOk, TreesBits, At, Pow2, Lsb, BitsOf, TreesAt;
    SmallPowers();
    hlit, bp := ReadExtra(data, start, 5, ok, if ok then |t.ll| - 257 else 0);
    hdist, bp := ReadExtra(data, bp, 5, ok, if ok then |t.d| - 1 else 0);
    hclen, bp := ReadExtra(data, bp, 4, ok, if ok then t.hclen - 4 else 0);
    hlit, hdist, hclen := hlit + 257, hdist + 1, hclen + 4;
  }

  /** The part of getTreeInflateDynamic up to the code lengths of the two alphabets. */
  method ReadAllLengths(data: seq<byte>, start: nat, ghost t: Trees)
    returns (error: nat, bp: nat, bitlen_ll: array<nat>, bitlen_d: array<nat>)
    ensures start <= bp && bitlen_ll.Length == NUM_DEFLATE_CODE_SYMBOLS && bitlen_d.Length == NUM_DISTANCE_SYMBOLS
    ensures fresh(bitlen_ll) && fresh(bitlen_d)
    ensures Bounded(bitlen_ll[..], 15) && Bounded(bitlen_d[..], 15)
    ensures TreesAt(data, start, t) ==>
              && error == 0 && bp == start + |TreesBits(t)|
              && |t.ll| <= NUM_DEFLATE_CODE_SYMBOLS && bitlen_ll[..] == PadLl(t)
              && |t.d| <= NUM_DISTANCE_SYMBOLS && bitlen_d[..] == PadD(t)
  {
    hide TreesOk, TreesBits, At, Pow2, Lsb, BitsOf, Roomy, Feasible, Kraft, CL.OpsOk, CL.ExpandOps, OpsCoded,
         OpsBits;
    hide HuffmanTree.Decodes, HuffmanTree.Encodes, Reading, Table, Present, PadLl, PadD, ClBits, Spread;
    ghost var ok := TreesAt(data, start, t);
    if ok {
      ClBitsAt(data, start, t);
      OpsBitsAt(data, start, t);
      TreesLength(data, start, t);
      TreesSizes(t);
      TreesReading(data, start, t);
      TreesRoomy(t);
    }
    bp := start;
    bitlen_ll := new nat[NUM_DEFLATE_CODE_SYMBOLS](_ => 0);
    bitlen_d := new nat[NUM_DISTANCE_SYMBOLS](_ => 0);
    if |data| >= 2 && bp / 8 >= |data| - 2 {
      error := 49;
      return;
    }
    var hlit, hdist, hclen;
    hlit, hdist, hclen, bp := ReadCounts(data, bp, t);
    var tree_cl;
    error, bp, tree_cl := ReadClTree(data, bp, hclen, t);
    if error != 0 { return; }
    assert bitlen_ll[..] == Zeros(NUM_DEFLATE_CODE_SYMBOLS) && bitlen_d[..] == Zeros(NUM_DISTANCE_SYMBOLS);
    SpreadNone(bitlen_ll[..], bitlen_d[..], hlit);
    error, bp := ReadCodeLengths(tree_cl, data, bp, hlit, hdist, bitlen_ll, bitlen_d, t.cl, t.ops);
    if ok { SpreadTrees(bitlen_ll[..], bitlen_d[..], t); }
  }

  lemma TreesAtRoomy(data: seq<byte>, p: nat, t: Trees)
    requires TreesAt(data, p, t)
    ensures |t.ll| <= NUM_DEFLATE_CODE_SYMBOLS && |t.d| <= NUM_DISTANCE_SYMBOLS
    ensures Roomy(PadLl(t), 15) && Roomy(PadD(t), 15)
    ensures Feasible(PadLl(t), 15) && Feasible(PadD(t), 15) && |PadLl(t)| > END_CODE && PadLl(t)[END_CODE] > 0
  {
    TreesRoomy(t);
    TreesSizes(t);
  }

  /** getTreeInflateDynamic */
  method GetTreeInflateDynamic(tree_ll: HuffmanTree, tree_d: HuffmanTree, data: seq<byte>, start: nat, ghost t: Trees)
    returns (error: nat, bp: nat)
    requires tree_ll != tree_d
    modifies tree_ll, tree_d
    ensures start <= bp
    ensures error == 0 ==> TreesMade(tree_ll, tree_d)
    ensures TreesAt(data, start, t) ==> error == 0 && bp == start + |TreesBits(t)| && TreesDecode(tree_ll, tree_d, t)
  {
    hide TreesOk, TreesBits, At, Pow2, BitsOf, Roomy, Feasible, Kraft, TreesAt;
    hide HuffmanTree.Decodes, HuffmanTree.Encodes, Table, PadLl, PadD;
    if TreesAt(data, start, t) { TreesAtRoomy(data, start, t); }
    var bitlen_ll, bitlen_d;
    error, bp, bitlen_ll, bitlen_d := ReadAllLengths(data, start, t);
    if error != 0 { return; }
    if bitlen_ll[END_CODE] == 0 {
      return 64, bp;
    }
    error := tree_ll.MakeFromLengths(bitlen_ll[..], 15);
    if error != 0 { return; }
    error := tree_d.MakeFromLengths(bitlen_d[..], 15);
  }

  // ---------------------------------------------------------------- compressed blocks

  /** Copying from the output itself; the source position wraps to stay before the start of the copy. */
  method CopyMatch(out: ByteVector, start: nat, distance: nat, length: nat) returns (pos: nat)
    requires 0 < distance <= start <= |out.data|
    modifies out
    ensures pos == start + length <= |out.data|
    ensures out.data[..pos] == CopyBytes(old(out.data[..start]), distance, length)
  {
    hide *;
    ghost var base := out.data[..start];
    pos := start;
    var backward: nat := start - distance;
    if pos + length >= |out.data| {
      out.Resize((pos + length) * 2);
    }
    assert out.data[..start] == base;
    CopyStart(base, out.data, distance);
    for forward := 0 to length
      invariant pos == start + forward && start + length <= |out.data| && |base| == start
      invariant Copying(base, out.data, distance, forward, backward)
    {
      CopyRange(base, out.data, distance, forward, backward);
      ghost var was := out.data;
      out.Put(pos, out.data[backward]);
      CopyStep(base, was, distance, forward, backward, out.data);
      pos := pos + 1;
      backward := backward + 1;
      if backward >= start {
        backward := start - distance;
      }
    }
    CopyRange(base, out.data, distance, length, backward);
  }

  /** The copy so far; the next bytes to be copied stand, in two pieces, before its start. */
  ghost predicate Copying(base: seq<byte>, data: seq<byte>, distance: nat, forward: nat, backward: nat) {
    var start, pos := |base|, |base| + forward;
    && 0 < distance <= start && start - distance <= backward < start && pos <= |data|
    && data[..pos] == CopyBytes(base, distance, forward)
    && data[..start] == base
    && data[pos - distance..pos] == base[backward..] + base[start - distance..backward]
  }

  lemma CopyStart(base: seq<byte>, data: seq<byte>, distance: nat)
    requires 0 < distance <= |base| <= |data| && data[..|base|] == base
    ensures Copying(base, data, distance, 0, |base| - distance)
  {
  }

  lemma CopyRange(base: seq<byte>, data: seq<byte>, distance: nat, forward: nat, backward: nat)
    requires Copying(base, data, distance, forward, backward)
    ensures |base| - distance <= backward < |base| && |base| + forward <= |data|
    ensures data[..|base| + forward] == CopyBytes(base, distance, forward)
  {
  }

  lemma CopyStep(base: seq<byte>, data: seq<byte>, distance: nat, forward: nat, backward: nat, more: seq<byte>)
    requires Copying(base, data, distance, forward, backward) && |base| + forward < |data|
    requires more == data[|base| + forward := data[backward]]
    ensures backward + 1 >= |base| ==> Copying(base, more, distance, forward + 1, |base| - distance)
    ensures backward + 1 < |base| ==> Copying(base, more, distance, forward + 1, backward + 1)
  {
    var start, pos := |base|, |base| + forward;
    var x := base[backward];
    var window := data[pos - distance..pos];
    assert data[..start][backward] == x == window[0] == data[..pos][pos - distance];
    assert more[..pos + 1] == data[..pos] + [x];
    assert more[..start] == data[..start];
    assert more[pos + 1 - distance..pos + 1] == window[1..] + [x];
    Rotate(base, start - distance, backward);
  }

  lemma Rotate(base: seq<byte>, from: nat, backward: nat)
    requires from <= backward < |base|
    ensures var next := if backward + 1 >= |base| then from else backward + 1;
            (base[backward..] + base[from..backward])[1..] + [base[backward]] == base[next..] + base[from..next]
  {
    assert base[from..backward] + [base[backward]] == base[from..backward + 1];
    assert (base[backward..] + base[from..backward])[1..] == base[backward + 1..] + base[from..backward];
  }

  /** What follows the length symbol of the match t. */
  ghost predicate MatchAt(data: seq<byte>, p: nat, d: seq<nat>, t: Token) {
    t.Match? && TokenOk(t) && Present(d, t.dcode) &&
    var q := p + LENGTHEXTRA[t.lcode];
    && At(BitsOf(data), p, Lsb(t.lextra, LENGTHEXTRA[t.lcode]))
    && At(BitsOf(data), q, Code(d, t.dcode))
    && At(BitsOf(data), q + d[t.dcode], Lsb(t.dextra, DISTANCEEXTRA[t.dcode]))
    && q + d[t.dcode] + DISTANCEEXTRA[t.dcode] < 8 * |data|
  }

  /** A length symbol was read: the rest of its match, parts 1 to 5. */
  method InflateMatch(out: ByteVector, tree_d: HuffmanTree, data: seq<byte>, start: nat, pos0: nat, code_ll: nat,
                      ghost ok: bool, ghost d: seq<nat>, ghost t: Token)
    returns (error: nat, bp: nat, pos: nat)
    requires FIRST_LENGTH_CODE_INDEX <= code_ll <= LAST_LENGTH_CODE_INDEX && pos0 <= |out.data|
    requires tree_d.numcodes == NUM_DISTANCE_SYMBOLS && tree_d.tree2d.Length == 2 * tree_d.numcodes
    requires ok ==> tree_d.Decodes(d) && Feasible(d, 15) && MatchAt(data, start, d, t)
    requires ok ==> t.lcode + FIRST_LENGTH_CODE_INDEX == code_ll && Fits(out.data[..pos0], t)
    modifies out
    ensures start <= bp && pos0 <= pos <= |out.data|
    ensures ok ==> && error == 0 && bp == start + LENGTHEXTRA[t.lcode] + d[t.dcode] + DISTANCEEXTRA[t.dcode]
                   && out.data[..pos] == Apply(old(out.data[..pos0]), t)
  {
    TableSizes();
    hide At, Code, Lsb, BitsOf, Pow2, Table, CopyBytes, Feasible, LENGTHBASE, LENGTHEXTRA, DISTANCEBASE, DISTANCEEXTRA;
    var inbitlength := 8 * |data|;
    error, bp, pos := 0, start, pos0;
    var numextrabits_l := LENGTHEXTRA[code_ll - FIRST_LENGTH_CODE_INDEX];
    if bp >= inbitlength {
      error := 51;
      return;
    }
    var extra_l;
    extra_l, bp := ReadExtra(data, bp, numextrabits_l, ok, if ok then t.lextra else 0);
    var length := LENGTHBASE[code_ll - FIRST_LENGTH_CODE_INDEX] + extra_l;
    var code_d;
    code_d, bp := tree_d.DecodeSymbol(data, bp, d, 15, if ok then t.dcode else 0);
    if code_d > 29 {
      // The original asks here whether code_ll, a length code, marks a failure: it never does.
      error := 18;
      return;
    }
    var numextrabits_d := DISTANCEEXTRA[code_d];
    if bp >= inbitlength {
      error := 51;
      return;
    }
    var extra_d;
    extra_d, bp := ReadExtra(data, bp, numextrabits_d, ok, if ok then t.dextra else 0);
    DistanceTable(code_d);
    var distance := DISTANCEBASE[code_d] + extra_d;
    if distance > pos {
      error := 52;
      return;
    }
    pos := CopyMatch(out, pos, distance, length);
  }

  /** The symbol that token number k begins with; after the last token the end code. */
  function FirstSymbol(tokens: seq<Token>, k: nat): nat
    requires k <= |tokens|
  {
    if k == |tokens| then END_CODE
    else match tokens[k]
      case Literal(b) => b
      case Match(lc, _, _, _) => lc + FIRST_LENGTH_CODE_INDEX
  }

  /** The decoder stands before token k of a block's compressed data. */
  ghost predicate Inflating(data: seq<byte>, start: nat, ll: seq<nat>, d: seq<nat>, tokens: seq<Token>, k: nat,
                            bp: nat) {
    && AllCoded(ll, d, tokens) && Present(ll, END_CODE) && k <= |tokens|
    && At(BitsOf(data), start, DataBits(ll, d, tokens))
    && bp == start + |TokensBits(ll, d, tokens[..k])|
  }

  lemma InflatingBits(data: seq<byte>, start: nat, ll: seq<nat>, d: seq<nat>, tokens: seq<Token>, k: nat, bp: nat)
    requires Inflating(data, start, ll, d, tokens, k, bp)
    ensures k < |tokens| ==> At(BitsOf(data), bp, TokenBits(ll, d, tokens[k]))
    ensures k == |tokens| ==> At(BitsOf(data), bp, Code(ll, END_CODE))
    ensures k < |tokens| ==> bp + |TokenBits(ll, d, tokens[k])| < 8 * |data|
    ensures k < |tokens| ==> Inflating(data, start, ll, d, tokens, k + 1, bp + |TokenBits(ll, d, tokens[k])|)
    ensures k == |tokens| ==> bp + ll[END_CODE] == start + |DataBits(ll, d, tokens)|
  {
    hide BitsOf, TokenBits, Code;
    var s := BitsOf(data);
    AtConcat(s, start, TokensBits(ll, d, tokens), Code(ll, END_CODE));
    AtFits(s, start, DataBits(ll, d, tokens));
    if k < |tokens| {
      TokensAt(s, start, ll, d, tokens, k);
      TokensBitsStep(ll, d, tokens, k);
      TokensPrefix(ll, d, tokens, k + 1);
    } else {
      assert tokens[..k] == tokens;
    }
  }

  lemma {:induction false} TokensPrefix(ll: seq<nat>, d: seq<nat>, tokens: seq<Token>, k: nat)
    requires AllCoded(ll, d, tokens) && k <= |tokens|
    ensures |TokensBits(ll, d, tokens[..k])| <= |TokensBits(ll, d, tokens)|
    decreases |tokens|
  {
    if k == |tokens| {
      assert tokens[..k] == tokens;
    } else {
      assert tokens[..|tokens| - 1][..k] == tokens[..k];
      TokensPrefix(ll, d, tokens[..|tokens| - 1], k);
    }
  }

  lemma InflatingSymbol(data: seq<byte>, start: nat, ll: seq<nat>, d: seq<nat>, tokens: seq<Token>, k: nat, bp: nat)
    requires Inflating(data, start, ll, d, tokens, k, bp)
    ensures Present(ll, FirstSymbol(tokens, k)) && At(BitsOf(data), bp, Code(ll, FirstSymbol(tokens, k)))
  {
    InflatingBits(data, start, ll, d, tokens, k, bp);
    if k < |tokens| && tokens[k].Match? {
      TokenParts(data, bp, ll, d, tokens[k]);
    }
  }

  lemma TokenParts(data: seq<byte>, bp: nat, ll: seq<nat>, d: seq<nat>, t: Token)
    requires Coded(ll, d, t) && t.Match? && At(BitsOf(data), bp, TokenBits(ll, d, t))
    requires bp + |TokenBits(ll, d, t)| < 8 * |data|
    ensures At(BitsOf(data), bp, Code(ll, t.lcode + FIRST_LENGTH_CODE_INDEX))
    ensures MatchAt(data, bp + ll[t.lcode + FIRST_LENGTH_CODE_INDEX], d, t)
  {
    hide At, BitsOf, Code, Lsb, Pow2;
    var c, e := Code(ll, t.lcode + FIRST_LENGTH_CODE_INDEX), Lsb(t.lextra, LENGTHEXTRA[t.lcode]);
    var dc, de := Code(d, t.dcode), Lsb(t.dextra, DISTANCEEXTRA[t.dcode]);
    var s := BitsOf(data);
    AtConcat(s, bp, c + e, dc + de);
    AtConcat(s, bp, c, e);
    AtConcat(s, bp + |c + e|, dc, de);
  }

  /** The output is what the first k tokens make of the output before the block. */
  ghost predicate Expanded(data: seq<byte>, pos: nat, before: seq<byte>, tokens: seq<Token>, k: nat) {
    k <= |tokens| && pos <= |data| && Sensible(before, tokens) && Sensible(before, tokens[..k])
    && data[..pos] == Expand(before, tokens[..k])
  }

  lemma ExpandedStep(data: seq<byte>, pos: nat, before: seq<byte>, tokens: seq<Token>, k: nat)
    requires Expanded(data, pos, before, tokens, k) && k < |tokens|
    ensures Fits(data[..pos], tokens[k])
    ensures forall data': seq<byte>, pos': nat | pos' <= |data'| && data'[..pos'] == Apply(data[..pos], tokens[k]) ::
              Expanded(data', pos', before, tokens, k + 1)
  {
    SensiblePrefix(before, tokens, k + 1);
    assert tokens[..k + 1][..k] == tokens[..k];
  }

  lemma ExpandedStart(data: seq<byte>, pos: nat, tokens: seq<Token>)
    requires pos <= |data| && Sensible(data[..pos], tokens)
    ensures Expanded(data, pos, data[..pos], tokens, 0)
  {
  }

  lemma ExpandedEnd(data: seq<byte>, pos: nat, before: seq<byte>, tokens: seq<Token>)
    requires Expanded(data, pos, before, tokens, |tokens|)
    ensures data[..pos] == Expand(before, tokens)
  {
    assert tokens[..|tokens|] == tokens;
  }

  /** The decoder stands before token k and has put out what the tokens before it stand for. */
  ghost predicate Midway(data: seq<byte>, start: nat, ll: seq<nat>, d: seq<nat>, tokens: seq<Token>, k: nat, bp: nat,
                         out: seq<byte>, pos: nat, before: seq<byte>) {
    && Feasible(ll, 15) && Feasible(d, 15)
    && Inflating(data, start, ll, d, tokens, k, bp) && Expanded(out, pos, before, tokens, k)
  }

  lemma MidwayStart(data: seq<byte>, start: nat, ll: seq<nat>, d: seq<nat>, tokens: seq<Token>, out: seq<byte>,
                    pos: nat)
    requires Feasible(ll, 15) && Feasible(d, 15) && pos <= |out|
    requires Inflating(data, start, ll, d, tokens, 0, start) && Sensible(out[..pos], tokens)
    ensures Midway(data, start, ll, d, tokens, 0, start, out, pos, out[..pos])
  {
    ExpandedStart(out, pos, tokens);
  }

  lemma MidwaySymbol(data: seq<byte>, start: nat, ll: seq<nat>, d: seq<nat>, tokens: seq<Token>, k: nat, bp: nat,
                     out: seq<byte>, pos: nat, before: seq<byte>)
    requires Midway(data, start, ll, d, tokens, k, bp, out, pos, before)
    ensures Feasible(ll, 15) && Feasible(d, 15) && pos <= |out|
    ensures k <= |tokens| && Present(ll, FirstSymbol(tokens, k))
    ensures At(BitsOf(data), bp, Code(ll, FirstSymbol(tokens, k)))
    ensures k < |tokens| ==> TokenOk(tokens[k])
    ensures k < |tokens| ==> Fits(out[..pos], tokens[k])
  {
    InflatingSymbol(data, start, ll, d, tokens, k, bp);
    if k < |tokens| { ExpandedStep(out, pos, before, tokens, k); }
  }

  lemma MidwayLiteral(data: seq<byte>, start: nat, ll: seq<nat>, d: seq<nat>, tokens: seq<Token>, k: nat, bp: nat,
                      out: seq<byte>, pos: nat, before: seq<byte>, out': seq<byte>)
    requires Midway(data, start, ll, d, tokens, k, bp, out, pos, before) && k < |tokens| && tokens[k].Literal?
    requires pos < |out'| && pos <= |out| && out'[..pos + 1] == out[..pos] + [tokens[k].b]
    ensures tokens[k].b < |ll| && Midway(data, start, ll, d, tokens, k + 1, bp + ll[tokens[k].b], out', pos + 1, before)
  {
    InflatingBits(data, start, ll, d, tokens, k, bp);
    ExpandedStep(out, pos, before, tokens, k);
  }

  lemma MidwayMatchAt(data: seq<byte>, start: nat, ll: seq<nat>, d: seq<nat>, tokens: seq<Token>, k: nat, bp: nat,
                      out: seq<byte>, pos: nat, before: seq<byte>)
    requires Midway(data, start, ll, d, tokens, k, bp, out, pos, before) && k < |tokens| && tokens[k].Match?
    ensures tokens[k].lcode + FIRST_LENGTH_CODE_INDEX < |ll| && tokens[k].dcode < |d|
    ensures MatchAt(data, bp + ll[tokens[k].lcode + FIRST_LENGTH_CODE_INDEX], d, tokens[k])
  {
    hide At, BitsOf, Code, Lsb, Pow2, Expand, Apply, Sensible, TokenBits, TokensBits, DataBits, MatchAt, Expanded,
         TokenOk, LENGTHBASE, LENGTHEXTRA, DISTANCEBASE, DISTANCEEXTRA, Kraft, Feasible;
    TableSizes();
    InflatingBits(data, start, ll, d, tokens, k, bp);
    TokenParts(data, bp, ll, d, tokens[k]);
  }

  lemma TokenLength(ll: seq<nat>, d: seq<nat>, t: Token)
    requires t.Match? && TokenOk(t) && t.lcode + FIRST_LENGTH_CODE_INDEX < |ll| && t.dcode < |d|
    ensures Coded(ll, d, t) ==>
              |TokenBits(ll, d, t)| == ll[t.lcode + FIRST_LENGTH_CODE_INDEX] + LENGTHEXTRA[t.lcode]
                                       + d[t.dcode] + DISTANCEEXTRA[t.dcode]
  {
    hide Lsb, Code, Pow2;
  }

  lemma MidwayMatch(data: seq<byte>, start: nat, ll: seq<nat>, d: seq<nat>, tokens: seq<Token>, k: nat, bp: nat,
                    out: seq<byte>, pos: nat, before: seq<byte>, out': seq<byte>, pos': nat, bp': nat)
    requires Midway(data, start, ll, d, tokens, k, bp, out, pos, before) && k < |tokens| && tokens[k].Match?
    requires TokenOk(tokens[k]) && tokens[k].lcode + FIRST_LENGTH_CODE_INDEX < |ll| && tokens[k].dcode < |d|
    requires pos <= |out| && Fits(out[..pos], tokens[k])
    requires pos' <= |out'| && out'[..pos'] == Apply(out[..pos], tokens[k])
    requires bp' ==
             bp + ll[tokens[k].lcode + FIRST_LENGTH_CODE_INDEX] + LENGTHEXTRA[tokens[k].lcode] + d[tokens[k].dcode]
                    + DISTANCEEXTRA[tokens[k].dcode]
    ensures Midway(data, start, ll, d, tokens, k + 1, bp', out', pos', before)
  {
    hide Apply, Expand, Sensible, At, BitsOf, Code, Lsb, Pow2, TokenBits, TokensBits, DataBits, Expanded, TokenOk, Fits,
         LENGTHBASE, LENGTHEXTRA, DISTANCEBASE, DISTANCEEXTRA, Kraft, Feasible;
    TableSizes();
    TokenLength(ll, d, tokens[k]);
    InflatingBits(data, start, ll, d, tokens, k, bp);
    ExpandedStep(out, pos, before, tokens, k);
  }

  lemma MidwayEnd(data: seq<byte>, start: nat, ll: seq<nat>, d: seq<nat>, tokens: seq<Token>, bp: nat,
                  out: seq<byte>, pos: nat, before: seq<byte>)
    requires Midway(data, start, ll, d, tokens, |tokens|, bp, out, pos, before)
    ensures AllCoded(ll, d, tokens) && Present(ll, END_CODE) && bp + ll[END_CODE] == start + |DataBits(ll, d, tokens)|
    ensures pos <= |out| && Sensible(before, tokens) && out[..pos] == Expand(before, tokens)
  {
    InflatingBits(data, start, ll, d, tokens, |tokens|, bp);
    ExpandedEnd(out, pos, before, tokens);
  }

  /** One round of the loop of inflateHuffmanBlock; `done` after the end code. */
  method InflateSymbol(out: ByteVector, tree_ll: HuffmanTree, tree_d: HuffmanTree, data: seq<byte>, bp0: nat, pos0: nat,
                       ghost ok: bool, ghost start: nat, ghost ll: seq<nat>, ghost d: seq<nat>,
                           ghost tokens: seq<Token>, ghost k: nat, ghost before: seq<byte>)
    returns (error: nat, bp: nat, pos: nat, done: bool)
    requires pos0 <= |out.data|
    requires tree_ll.numcodes == NUM_DEFLATE_CODE_SYMBOLS && tree_ll.tree2d.Length == 2 * tree_ll.numcodes
    requires tree_d.numcodes == NUM_DISTANCE_SYMBOLS && tree_d.tree2d.Length == 2 * tree_d.numcodes
    requires ok ==> tree_ll.Decodes(ll) && tree_d.Decodes(d)
                    && Midway(data, start, ll, d, tokens, k, bp0, out.data, pos0, before)
    modifies out
    ensures bp0 <= bp && pos0 <= pos <= |out.data|
    ensures error == 0 && !done ==> bp0 < bp && bp0 < 8 * |data|
    ensures ok ==> error == 0 && k <= |tokens| && (done <==> k == |tokens|)
    ensures ok && k == |tokens| ==>
              && AllCoded(ll, d, tokens) && Present(ll, END_CODE) && bp == start + |DataBits(ll, d, tokens)|
              && Sensible(before, tokens) && out.data[..pos] == Expand(before, tokens)
    ensures ok && k < |tokens| ==> Midway(data, start, ll, d, tokens, k + 1, bp, out.data, pos, before)
  {
    hide Midway, At, BitsOf, Code, Lsb, Pow2, Table, Feasible, Apply, Expand, DataBits, TokensBits, MatchAt, Sensible,
         CopyBytes, Fits, AllCoded, LENGTHBASE, LENGTHEXTRA, DISTANCEBASE, DISTANCEEXTRA, HuffmanTree.Decodes;
    TableSizes();
    if ok { MidwaySymbol(data, start, ll, d, tokens, k, bp0, out.data, pos0, before); }
    if ok && k == |tokens| { MidwayEnd(data, start, ll, d, tokens, bp0, out.data, pos0, before); }
    error, pos, done := 0, pos0, false;
    ghost var old_out := out.data;
    var code_ll;
    code_ll, bp := tree_ll.DecodeSymbol(data, bp0, ll, 15, if ok then FirstSymbol(tokens, k) else 0);
    if code_ll <= 255 {
      if pos >= |out.data| {
        out.Resize((pos + 1) * 2);
      }
      out.Put(pos, code_ll);
      assert out.data[..pos + 1] == old_out[..pos] + [code_ll];
      if ok {
        MidwayLiteral(data, start, ll, d, tokens, k, bp0, old_out, pos, before, out.data);
      }
      pos := pos + 1;
    } else if FIRST_LENGTH_CODE_INDEX <= code_ll <= LAST_LENGTH_CODE_INDEX {
      if ok { MidwayMatchAt(data, start, ll, d, tokens, k, bp0, old_out, pos0, before); }
      error, bp, pos := InflateMatch(out, tree_d, data, bp, pos, code_ll, ok, d, if ok then tokens[k] else Literal(0));
      if ok { MidwayMatch(data, start, ll, d, tokens, k, bp0, old_out, pos0, before, out.data, pos, bp); }
    } else if code_ll == END_CODE {
      done := true;
    } else {
      error := if bp > 8 * |data| then 10 else 11;
    }
  }

  /** The loop of inflateHuffmanBlock: all symbols until the end code. */
  method InflateSymbols(out: ByteVector, tree_ll: HuffmanTree, tree_d: HuffmanTree, data: seq<byte>, start: nat,
                        pos0: nat, ghost ll: seq<nat>, ghost d: seq<nat>, ghost tokens: seq<Token>)
    returns (error: nat, bp: nat, pos: nat)
    requires pos0 <= |out.data|
    requires tree_ll.numcodes == NUM_DEFLATE_CODE_SYMBOLS && tree_ll.tree2d.Length == 2 * tree_ll.numcodes
    requires tree_d.numcodes == NUM_DISTANCE_SYMBOLS && tree_d.tree2d.Length == 2 * tree_d.numcodes
    modifies out
    ensures start <= bp && pos0 <= pos <= |out.data|
    ensures tree_ll.Decodes(ll) && tree_d.Decodes(d) && Feasible(ll, 15) && Feasible(d, 15) &&
            Inflating(data, start, ll, d, tokens, 0, start) && Sensible(old(out.data[..pos0]), tokens) ==>
              && error == 0 && bp == start + |DataBits(ll, d, tokens)|
              && out.data[..pos] == Expand(old(out.data[..pos0]), tokens)
  {
    hide Midway, At, BitsOf, Table, Feasible, Inflating, Expand, DataBits, TokensBits, Sensible, HuffmanTree.Decodes;
    ghost var ok := tree_ll.Decodes(ll) && tree_d.Decodes(d) && Feasible(ll, 15) && Feasible(d, 15) &&
                    Inflating(data, start, ll, d, tokens, 0, start) && Sensible(out.data[..pos0], tokens);
    ghost var before := out.data[..pos0];
    ghost var k: nat := 0;
    error, bp, pos := 0, start, pos0;
    if ok { MidwayStart(data, start, ll, d, tokens, out.data, pos); }
    var done := false;
    while error == 0 && !done
      invariant start <= bp && pos0 <= pos <= |out.data|
      invariant ok ==> tree_ll.Decodes(ll) && tree_d.Decodes(d) && error == 0
      invariant ok && !done ==> Midway(data, start, ll, d, tokens, k, bp, out.data, pos, before)
      invariant ok && done ==>
                  AllCoded(ll, d, tokens) && Present(ll, END_CODE) && bp == start + |DataBits(ll, d, tokens)|
                               && Sensible(before, tokens) && out.data[..pos] == Expand(before, tokens)
      decreases if error == 0 && !done then 1 else 0, 8 * |data| - bp
    {
      error, bp, pos, done := InflateSymbol(out, tree_ll, tree_d, data, bp, pos, ok, start, ll, d, tokens, k, before);
      k := k + 1;
    }
  }

  lemma {:induction false} PadTokens(t: Trees, tokens: seq<Token>)
    requires |t.ll| <= NUM_DEFLATE_CODE_SYMBOLS && |t.d| <= NUM_DISTANCE_SYMBOLS && AllCoded(t.ll, t.d, tokens)
    ensures AllCoded(PadLl(t), PadD(t), tokens)
    ensures TokensBits(PadLl(t), PadD(t), tokens) == TokensBits(t.ll, t.d, tokens)
  {
    hide Code, Lsb, Pow2;
    forall i | 0 <= i < |tokens|
      ensures Coded(PadLl(t), PadD(t), tokens[i])
      ensures TokenBits(PadLl(t), PadD(t), tokens[i]) == TokenBits(t.ll, t.d, tokens[i])
    {
      PadToken(t, tokens[i]);
    }
    if tokens != [] {
      PadTokens(t, tokens[..|tokens| - 1]);
    }
  }

  lemma PadToken(t: Trees, token: Token)
    requires |t.ll| <= NUM_DEFLATE_CODE_SYMBOLS && |t.d| <= NUM_DISTANCE_SYMBOLS && Coded(t.ll, t.d, token)
    ensures Coded(PadLl(t), PadD(t), token)
    ensures TokenBits(PadLl(t), PadD(t), token) == TokenBits(t.ll, t.d, token)
  {
    hide Code, Lsb, Pow2;
    var m, n := NUM_DEFLATE_CODE_SYMBOLS - |t.ll|, NUM_DISTANCE_SYMBOLS - |t.d|;
    match token
    case Literal(b) =>
      PadCode(t.ll, m, b);
    case Match(lc, _, dc, _) =>
      PadCode(t.ll, m, lc + FIRST_LENGTH_CODE_INDEX);
      PadCode(t.d, n, dc);
  }

  lemma PadData(t: Trees, tokens: seq<Token>)
    requires TreesOk(t) && AllCoded(t.ll, t.d, tokens)
    ensures AllCoded(PadLl(t), PadD(t), tokens) && Present(PadLl(t), END_CODE)
    ensures DataBits(PadLl(t), PadD(t), tokens) == DataBits(t.ll, t.d, tokens)
  {
    hide Code, TokensBits, AllCoded, TreesOk, CL.OpsOk, CL.ExpandOps, OpsCoded, Roomy, Pow2;
    TreesSizes(t);
    PadTokens(t, tokens);
    PadCode(t.ll, NUM_DEFLATE_CODE_SYMBOLS - |t.ll|, END_CODE);
  }

  /** A compressed block without its three header bits. */
  function BodyBits(b: Block): Bitstring
    requires BlockCoded(b) && !b.Stored?
  {
    match b
    case Fixed(tokens) => FixedCodesEnd(); DataBits(FixedLengths(), FixedDistances(), tokens)
    case Dynamic(t, tokens) => TreesBits(t) + DataBits(t.ll, t.d, tokens)
  }

  ghost predicate BodyAt(data: seq<byte>, p: nat, b: Block) {
    !b.Stored? && BlockCoded(b) && At(BitsOf(data), p, BodyBits(b))
  }

  lemma FixedStart(data: seq<byte>, p: nat, b: Block)
    requires BodyAt(data, p, b) && b.Fixed?
    ensures Feasible(FixedLengths(), 15) && Feasible(FixedDistances(), 15)
    ensures Inflating(data, p, FixedLengths(), FixedDistances(), b.tokens, 0, p)
    ensures |BodyBits(b)| == |DataBits(FixedLengths(), FixedDistances(), b.tokens)|
  {
    hide At, Code, BitsOf, Kraft, FixedLengths, FixedDistances;
    FixedCodesEnd();
    FixedComplete();
  }

  lemma DynamicStart(data: seq<byte>, p: nat, t: Trees, tokens: seq<Token>)
    requires TreesOk(t) && AllCoded(t.ll, t.d, tokens)
    requires At(BitsOf(data), p, TreesBits(t) + DataBits(t.ll, t.d, tokens))
    ensures TreesAt(data, p, t)
    ensures var q := p + |TreesBits(t)|; Inflating(data, q, PadLl(t), PadD(t), tokens, 0, q)
  {
    hide At, BitsOf, TreesOk, TreesBits, DataBits, AllCoded, PadLl, PadD, Inflating, Roomy, CL.OpsOk, CL.ExpandOps,
         OpsCoded, Pow2;
    TreesSizes(t);
    PadData(t, tokens);
    AtConcat(BitsOf(data), p, TreesBits(t), DataBits(t.ll, t.d, tokens));
    BodyStart(data, p + |TreesBits(t)|, PadLl(t), PadD(t), tokens);
  }

  lemma BodyStart(data: seq<byte>, p: nat, ll: seq<nat>, d: seq<nat>, tokens: seq<Token>)
    requires AllCoded(ll, d, tokens) && Present(ll, END_CODE) && At(BitsOf(data), p, DataBits(ll, d, tokens))
    ensures Inflating(data, p, ll, d, tokens, 0, p)
  {
  }

  /** The lengths that the decoder's trees realise for a block, and where its data starts. */
  function LengthsOf(b: Block): seq<nat>
    requires BlockCoded(b) && !b.Stored?
  {
    if b.Fixed? then FixedLengths() else PadLl(b.trees)
  }

  function DistancesOf(b: Block): seq<nat>
    requires BlockCoded(b) && !b.Stored?
  {
    if b.Fixed? then FixedDistances() else PadD(b.trees)
  }

  function TreesSize(b: Block): nat
    requires BlockCoded(b) && !b.Stored?
  {
    if b.Fixed? then 0 else |TreesBits(b.trees)|
  }

  lemma BodyParts(data: seq<byte>, p: nat, b: Block)
    requires BodyAt(data, p, b)
    ensures !b.Stored? && BlockCoded(b) && Feasible(LengthsOf(b), 15) && Feasible(DistancesOf(b), 15)
    ensures Inflating(data, p + TreesSize(b), LengthsOf(b), DistancesOf(b), b.tokens, 0, p + TreesSize(b))
    ensures AllCoded(LengthsOf(b), DistancesOf(b), b.tokens) && Present(LengthsOf(b), END_CODE)
    ensures |BodyBits(b)| == TreesSize(b) + |DataBits(LengthsOf(b), DistancesOf(b), b.tokens)|
  {
    hide BodyAt, BodyBits, At, BitsOf, Feasible, DataBits, TreesBits, TreesOk, PadLl, PadD, FixedLengths,
         FixedDistances, AllCoded, Inflating, LengthsOf, DistancesOf, TreesSize, Present;
    BodyKind(data, p, b);
    if b.Fixed? { FixedParts(data, p, b); } else { DynamicParts(data, p, b); }
  }

  lemma BodyKind(data: seq<byte>, p: nat, b: Block)
    requires BodyAt(data, p, b)
    ensures !b.Stored? && BlockCoded(b)
  {
    hide BlockCoded;
  }

  lemma FixedParts(data: seq<byte>, p: nat, b: Block)
    requires BodyAt(data, p, b) && b.Fixed?
    ensures Feasible(LengthsOf(b), 15) && Feasible(DistancesOf(b), 15)
    ensures Inflating(data, p + TreesSize(b), LengthsOf(b), DistancesOf(b), b.tokens, 0, p + TreesSize(b))
    ensures AllCoded(LengthsOf(b), DistancesOf(b), b.tokens) && Present(LengthsOf(b), END_CODE)
    ensures |BodyBits(b)| == TreesSize(b) + |DataBits(LengthsOf(b), DistancesOf(b), b.tokens)|
  {
    hide At, BitsOf, Feasible, DataBits, FixedLengths, FixedDistances, AllCoded;
    FixedStart(data, p, b);
  }

  lemma DynamicParts(data: seq<byte>, p: nat, b: Block)
    requires BodyAt(data, p, b) && b.Dynamic?
    ensures Feasible(LengthsOf(b), 15) && Feasible(DistancesOf(b), 15)
    ensures Inflating(data, p + TreesSize(b), LengthsOf(b), DistancesOf(b), b.tokens, 0, p + TreesSize(b))
    ensures AllCoded(LengthsOf(b), DistancesOf(b), b.tokens) && Present(LengthsOf(b), END_CODE)
    ensures |BodyBits(b)| == TreesSize(b) + |DataBits(LengthsOf(b), DistancesOf(b), b.tokens)|
  {
    hide At, BitsOf, Feasible, DataBits, TreesBits, TreesOk, PadLl, PadD, AllCoded, Inflating;
    TreesRoomy(b.trees);
    PadData(b.trees, b.tokens);
    DynamicStart(data, p, b.trees, b.tokens);
  }

  lemma BodyTrees(data: seq<byte>, p: nat, b: Block)
    requires BodyAt(data, p, b) && b.Dynamic?
    ensures TreesAt(data, p, b.trees) && TreesOk(b.trees) && |b.trees.ll| <= 288 && |b.trees.d| <= 32
    ensures LengthsOf(b) == PadLl(b.trees) && DistancesOf(b) == PadD(b.trees) && TreesSize(b) == |TreesBits(b.trees)|
  {
    hide At, BitsOf;
    DynamicStart(data, p, b.trees, b.tokens);
  }

  /** getTreeInflateFixed or getTreeInflateDynamic */
  method GetTrees(tree_ll: HuffmanTree, tree_d: HuffmanTree, data: seq<byte>, start: nat, btype: nat, ghost b: Block)
    returns (error: nat, bp: nat)
    requires tree_ll != tree_d && (btype == 1 || btype == 2)
    modifies tree_ll, tree_d
    ensures start <= bp
    ensures error == 0 ==> TreesMade(tree_ll, tree_d)
    ensures BodyAt(data, start, b) && btype == (if b.Fixed? then 1 else 2) ==>
              && error == 0 && bp == start + TreesSize(b)
              && tree_ll.Decodes(LengthsOf(b)) && tree_d.Decodes(DistancesOf(b))
  {
    ghost var ok := BodyAt(data, start, b) && btype == if b.Fixed? then 1 else 2;
    if ok && btype == 2 { BodyTrees(data, start, b); }
    hide BodyBits, At, BitsOf, TreesOk, TreesAt, TreesBits, Table, PadLl, PadD, FixedLengths, FixedDistances,
         HuffmanTree.Decodes, HuffmanTree.Encodes, BodyAt;
    error, bp := 0, start;
    if btype == 1 {
      GenerateFixedLitLenTree(tree_ll);
      GenerateFixedDistanceTree(tree_d);
    } else {
      error, bp := GetTreeInflateDynamic(tree_ll, tree_d, data, bp, if ok then b.trees else Trees([], [], [], 0, []));
    }
  }

  /** inflateHuffmanBlock, for block types 1 and 2 */
  method InflateHuffmanBlock(out: ByteVector, data: seq<byte>, start: nat, pos0: nat, btype: nat, ghost b: Block)
    returns (error: nat, bp: nat, pos: nat)
    requires pos0 <= |out.data| && (btype == 1 || btype == 2)
    modifies out
    ensures start <= bp && pos0 <= pos <= |out.data|
    ensures BodyAt(data, start, b) && btype == (if b.Fixed? then 1 else 2) &&
            Sensible(old(out.data[..pos0]), b.tokens) ==>
              && error == 0 && bp == start + |BodyBits(b)|
              && out.data[..pos] == Expand(old(out.data[..pos0]), b.tokens)
  {
    hide BodyAt, BodyBits, At, BitsOf, Feasible, Inflating, Expand, DataBits, Sensible, Table, AllCoded, TreesOk,
         Present, LengthsOf, DistancesOf, TreesSize, HuffmanTree.Decodes, HuffmanTree.Encodes, BlockCoded;
    ghost var ok := BodyAt(data, start, b) && btype == if b.Fixed? then 1 else 2;
    if ok { BodyParts(data, start, b); }
    var tree_ll := new HuffmanTree();
    var tree_d := new HuffmanTree();
    error, bp := GetTrees(tree_ll, tree_d, data, start, btype, b);
    pos := pos0;
    if error == 0 {
      error, bp, pos := InflateSymbols(out, tree_ll, tree_d, data, bp, pos, if ok then LengthsOf(b) else [],
                                       if ok then DistancesOf(b) else [], if ok then b.tokens else []);
    }
  }

  /** A byte of the input; one past its end, which the original leaves undefined, is zero here. */
  function ReadByte(data: seq<byte>, p: nat): byte {
    if p < |data| then data[p] else 0
  }

  /** A stored block without its three header bits. */
  function StoredBits(p: nat, data: seq<byte>): Bitstring
    requires |data| <= 65535
  {
    Padding(p) + (Lsb(|data|, 16) + Lsb(65535 - |data|, 16) + BitsOf(data))
  }

  lemma StoredParts(data: seq<byte>, p: nat, x: seq<byte>)
    requires |x| <= 65535 && At(BitsOf(data), p, StoredBits(p, x))
    ensures var q := (p + 7) / 8;
            && q + 4 + |x| <= |data|
            && |x| == data[q] as nat + 256 * data[q + 1] as nat
            && 65535 - |x| == data[q + 2] as nat + 256 * data[q + 3] as nat
            && data[q + 4..q + 4 + |x|] == x
            && p + |StoredBits(p, x)| == 8 * (q + 4 + |x|)
  {
    hide At, Lsb, BitsOf;
    var s, q := BitsOf(data), (p + 7) / 8;
    var l, n := Lsb(|x|, 16), Lsb(65535 - |x|, 16);
    assert p + |Padding(p)| == 8 * q;
    AtConcat(s, p, Padding(p), l + n + BitsOf(x));
    AtConcat(s, 8 * q, l + n, BitsOf(x));
    AtConcat(s, 8 * q, l, n);
    assert 8 * q + |l| == 8 * (q + 2) && 8 * q + |l + n| == 8 * (q + 4);
    WordAt(data, q, |x|);
    WordAt(data, q + 2, 65535 - |x|);
    BytesAt(data, q + 4, x);
  }

  /** Two bytes of the input, low byte first. */
  function ReadWord(data: seq<byte>, p: nat): nat {
    ReadByte(data, p) as nat + 256 * ReadByte(data, p + 1) as nat
  }

  /**
   * inflateNoCompression. Error 52 comes also where an empty block ends with the input; with fewer than
   * four bytes of input the bound of the original wraps around and it does not come at all.
   */
  method InflateNoCompression(out: ByteVector, data: seq<byte>, start: nat, pos0: nat, ghost x: seq<byte>)
    returns (error: nat, bp: nat, pos: nat)
    requires pos0 <= |out.data|
    modifies out
    ensures start <= bp && pos0 <= pos <= |out.data|
    ensures var q := (start + 7) / 8;
            error == if |data| >= 4 && q >= |data| - 4 then 52
                     else if ReadWord(data, q) + ReadWord(data, q + 2) != 65535 then 21
                     else if q + 4 + ReadWord(data, q) > |data| then 23
                     else 0
    ensures |x| <= 65535 && At(BitsOf(data), start, StoredBits(start, x)) ==>
              if x == [] && start + |StoredBits(start, x)| == 8 * |data| then error == 52
              else error == 0 && bp == start + |StoredBits(start, x)| && out.data[..pos] == old(out.data[..pos0]) + x
  {
    hide At, BitsOf, StoredBits;
    ghost var ok := |x| <= 65535 && At(BitsOf(data), start, StoredBits(start, x));
    if ok { StoredParts(data, start, x); }
    bp, pos, error := start, pos0, 0;
    while bp % 8 != 0
      invariant start <= bp <= 8 * ((start + 7) / 8)
      decreases 8 * ((start + 7) / 8) - bp
    {
      bp := bp + 1;
    }
    var p: nat := bp / 8;
    assert p == (start + 7) / 8;
    if |data| >= 4 && p >= |data| - 4 {
      error := 52;
      return;
    }
    var len := ReadWord(data, p);
    p := p + 2;
    var nlen := ReadWord(data, p);
    p := p + 2;
    if len + nlen != 65535 {
      error := 21;
      return;
    }
    if pos + len >= |out.data| {
      out.Resize(pos + len);
    }
    if p + len > |data| {
      error := 23;
      return;
    }
    pos, p := CopyStored(out, data, pos, p, len);
    bp := p * 8;
  }

  /** The bytes of a stored block, into a buffer that has room for them. */
  method CopyStored(out: ByteVector, data: seq<byte>, pos0: nat, p0: nat, len: nat) returns (pos: nat, p: nat)
    requires pos0 + len <= |out.data| && p0 + len <= |data|
    modifies out
    ensures pos == pos0 + len <= |out.data| && p == p0 + len
    ensures out.data[..pos] == old(out.data[..pos0]) + data[p0..p0 + len]
  {
    pos, p := pos0, p0;
    ghost var before := out.data[..pos0];
    for n := 0 to len
      invariant pos == pos0 + n && p == p0 + n && pos0 + len <= |out.data|
      invariant out.data[..pos] == before + data[p0..p]
    {
      ghost var was := out.data;
      out.Put(pos, data[p]);
      assert out.data[..pos + 1] == was[..pos] + [data[p]];
      assert data[p0..p + 1] == data[p0..p] + [data[p]];
      pos := pos + 1;
      p := p + 1;
    }
  }

  // ---------------------------------------------------------------- streams

  /** Where block k of a stream stands. */
  lemma {:induction false} BlockAt(s: Bitstring, blocks: seq<Block>, n: nat, k: nat)
    requires k < n <= |blocks| && forall i | 0 <= i < |blocks| :: BlockCoded(blocks[i])
    requires At(s, 0, StreamBits(blocks, n))
    ensures At(s, |StreamBits(blocks, k)|, BlockBits(|StreamBits(blocks, k)|, blocks[k], k + 1 == |blocks|))
    decreases n
  {
    hide At, BlockBits, BlockCoded;
    var front := StreamBits(blocks, n - 1);
    AtConcat(s, 0, front, BlockBits(|front|, blocks[n - 1], n == |blocks|));
    if k < n - 1 { BlockAt(s, blocks, n - 1, k); }
  }

  lemma {:induction false} FitsPrefix(blocks: seq<Block>, n: nat, k: nat)
    requires k <= n <= |blocks| && StreamFits(blocks, n)
    ensures StreamFits(blocks, k)
    decreases n
  {
    if k < n { FitsPrefix(blocks, n - 1, k); }
  }

  function TypeOf(b: Block): nat {
    match b
    case Stored(_) => 0
    case Fixed(_) => 1
    case Dynamic(_, _) => 2
  }

  /** Block b stands at p. */
  ghost predicate WholeAt(data: seq<byte>, p: nat, b: Block, final: bool) {
    BlockCoded(b) && At(BitsOf(data), p, BlockBits(p, b, final))
  }

  lemma HeaderParts(s: Bitstring, p: nat, f: bool, x: bool, y: bool, rest: Bitstring)
    requires At(s, p, [f, x, y] + rest)
    ensures p + 3 + |rest| <= |s| && s[p] == f && s[p + 1] == x && s[p + 2] == y && At(s, p + 3, rest)
  {
    AtConcat(s, p, [f, x, y], rest);
    assert s[p..p + 3] == [f, x, y];
    assert s[p..p + 3][0] == f && s[p..p + 3][1] == x && s[p..p + 3][2] == y;
  }

  /** A block without its three header bits, from position p on. */
  function RestBits(p: nat, b: Block): (s: Bitstring)
    requires BlockCoded(b)
  {
    if b.Stored? then StoredBits(p, b.data) else BodyBits(b)
  }

  lemma BlockForm(p: nat, b: Block, final: bool)
    requires BlockCoded(b)
    ensures BlockBits(p, b, final) == [final, TypeOf(b) == 1, TypeOf(b) == 2] + RestBits(p + 3, b)
  {
    hide DataBits, TreesBits, TreesOk, AllCoded, Padding, Lsb, BitsOf, FixedLengths, FixedDistances;
  }

  lemma RestSize(p: nat, b: Block)
    requires BlockCoded(b)
    ensures |RestBits(p, b)| > 0
  {
    hide TreesBits, TreesOk, AllCoded, TokensBits, Padding, Lsb, BitsOf, FixedLengths, FixedDistances;
    match b
    case Stored(x) =>
    case Fixed(tokens) =>
      FixedCodesEnd();
      DataSize(FixedLengths(), FixedDistances(), tokens);
    case Dynamic(t, tokens) =>
      TreesSizes(t);
      DataSize(t.ll, t.d, tokens);
  }

  lemma DataSize(ll: seq<nat>, d: seq<nat>, tokens: seq<Token>)
    requires AllCoded(ll, d, tokens) && Present(ll, END_CODE)
    ensures |DataBits(ll, d, tokens)| > 0
  {
  }

  /** What the decoder reads of the header, and where the rest of the block stands. */
  lemma Header(data: seq<byte>, p: nat, b: Block, final: bool)
    requires WholeAt(data, p, b, final)
    ensures p + 3 < 8 * |data|
    ensures ReadBit(data, p) == (if final then 1 else 0)
    ensures ReadBit(data, p + 1) + 2 * ReadBit(data, p + 2) == TypeOf(b)
    ensures BlockCoded(b) && At(BitsOf(data), p + 3, RestBits(p + 3, b))
    ensures |BlockBits(p, b, final)| == 3 + |RestBits(p + 3, b)|
  {
    hide At, BlockCoded, BlockBits, RestBits;
    BlockForm(p, b, final);
    RestSize(p + 3, b);
    HeaderParts(BitsOf(data), p, final, TypeOf(b) == 1, TypeOf(b) == 2, RestBits(p + 3, b));
  }

  /** One round of the loop of lodepng_inflatev: a block with its header. */
  method InflateBlock(out: ByteVector, data: seq<byte>, start: nat, pos0: nat, ghost b: Block, ghost final: bool)
    returns (error: nat, bp: nat, pos: nat, bfinal: nat)
    requires pos0 <= |out.data|
    modifies out
    ensures start <= bp && pos0 <= pos <= |out.data|
    ensures error == 0 ==> start < bp && start < 8 * |data|
    ensures data == [] ==> error == 52
    ensures start == 0 && |data| == 4 && ReadBit(data, 1) == ReadBit(data, 2) == 0 ==> error == 52
    ensures WholeAt(data, start, b, final) && BlockFits(old(out.data[..pos0]), b) ==>
              if b == Stored([]) && start + |BlockBits(start, b, final)| == 8 * |data| then error == 52
              else && error == 0 && bp == start + |BlockBits(start, b, final)| && bfinal == (if final then 1 else 0)
                   && out.data[..pos] == BlockData(old(out.data[..pos0]), b)
  {
    hide WholeAt, At, BitsOf, BlockBits, StoredBits, BodyBits, DataBits, TreesOk, Sensible, Expand, ReadBit;
    if WholeAt(data, start, b, final) { Header(data, start, b, final); }
    bp, pos, bfinal := start, pos0, 0;
    if bp + 2 >= 8 * |data| {
      error := 52;
      return;
    }
    bfinal := ReadBit(data, bp);
    var btype: nat := ReadBit(data, bp + 1);
    btype := btype + 2 * ReadBit(data, bp + 2);
    bp := bp + 3;
    if btype == 3 {
      error := 20;
    } else if btype == 0 {
      error, bp, pos := InflateNoCompression(out, data, bp, pos, if b.Stored? then b.data else []);
    } else {
      error, bp, pos := InflateHuffmanBlock(out, data, bp, pos, btype, b);
    }
  }

  /** The blocks of a stream before block k have been decoded. */
  ghost predicate Streaming(data: seq<byte>, blocks: seq<Block>, k: nat, bp: nat, out: seq<byte>, pos: nat) {
    && IsStream(data, blocks) && k <= |blocks| && pos <= |out| && StreamFits(blocks, k)
    && bp == |StreamBits(blocks, k)| && out[..pos] == StreamData(blocks, k)
  }

  lemma StreamingBlock(data: seq<byte>, blocks: seq<Block>, k: nat, bp: nat, out: seq<byte>, pos: nat)
    requires Streaming(data, blocks, k, bp, out, pos) && k < |blocks|
    ensures BlockCoded(blocks[k]) && WholeAt(data, bp, blocks[k], k + 1 == |blocks|)
    ensures pos <= |out| && BlockFits(out[..pos], blocks[k])
  {
    hide At, BitsOf, BlockBits, BlockCoded, BlockFits;
    BlockAt(BitsOf(data), blocks, |blocks|, k);
    FitsPrefix(blocks, |blocks|, k + 1);
  }

  /** Where the input ends with block k: a block that something else follows never does. */
  lemma StreamingRoom(data: seq<byte>, blocks: seq<Block>, k: nat, bp: nat, out: seq<byte>, pos: nat)
    requires Streaming(data, blocks, k, bp, out, pos) && k < |blocks| && BlockCoded(blocks[k])
    ensures var end := bp + |BlockBits(bp, blocks[k], k + 1 == |blocks|)|;
            if blocks[k] == Stored([]) && end == 8 * |data| then !Decodable(data, blocks)
            else k + 1 == |blocks| ==> Decodable(data, blocks)
  {
    hide At, BitsOf, BlockBits, BlockCoded, BlockFits, StreamData;
    StreamEnds(data, blocks, k + 1);
  }

  /** The first n blocks end within the input, and before its end when they are not all. */
  lemma {:induction false} StreamEnds(data: seq<byte>, blocks: seq<Block>, n: nat)
    requires IsStream(data, blocks) && n <= |blocks|
    ensures |StreamBits(blocks, n)| <= 8 * |data|
    ensures n < |blocks| ==> |StreamBits(blocks, n)| < 8 * |data|
    decreases |blocks| - n
  {
    hide BitsOf, BlockBits, BlockCoded, StreamFits;
    if n < |blocks| {
      StreamEnds(data, blocks, n + 1);
      BlockForm(|StreamBits(blocks, n)|, blocks[n], n + 1 == |blocks|);
    }
  }

  lemma StreamingNext(data: seq<byte>, blocks: seq<Block>, k: nat, bp: nat, out: seq<byte>, pos: nat,
                      bp': nat, out': seq<byte>, pos': nat)
    requires Streaming(data, blocks, k, bp, out, pos) && k < |blocks| && BlockCoded(blocks[k])
    requires pos <= |out| && BlockFits(out[..pos], blocks[k])
    requires bp' == bp + |BlockBits(bp, blocks[k], k + 1 == |blocks|)|
    requires pos' <= |out'| && out'[..pos'] == BlockData(out[..pos], blocks[k])
    ensures Streaming(data, blocks, k + 1, bp', out', pos')
  {
    hide At, BitsOf, BlockBits, BlockCoded, BlockFits, BlockData;
    FitsPrefix(blocks, |blocks|, k + 1);
  }

  lemma StreamingStart(data: seq<byte>, blocks: seq<Block>, out: seq<byte>)
    requires IsStream(data, blocks)
    ensures Streaming(data, blocks, 0, 0, out, 0)
  {
  }

  lemma StreamingEnd(data: seq<byte>, blocks: seq<Block>, bp: nat, out: seq<byte>, pos: nat)
    requires Streaming(data, blocks, |blocks|, bp, out, pos)
    ensures StreamFits(blocks, |blocks|) && pos <= |out| && out[..pos] == StreamData(blocks, |blocks|)
    ensures bp <= 8 * |data|
  {
  }

  /**
   * lodepng_inflatev. Whatever the buffer held before, a DEFLATE stream of any blocks is decoded,
   * without an error, to exactly the bytes that these blocks stand for; the one exception is a stream
   * that ends, with nothing behind it, with an empty stored block.
   */
  method InflateV(out: ByteVector, data: seq<byte>, ghost blocks: seq<Block>) returns (error: nat)
    modifies out
    ensures IsStream(data, blocks) ==>
              if Decodable(data, blocks) then error == 0 && out.data == StreamData(blocks, |blocks|) else error == 52
    ensures data == [] ==> error == 52
    ensures |data| == 4 && ReadBit(data, 1) == ReadBit(data, 2) == 0 ==> error == 52
  {
    hide IsStream, Decodable, Streaming, WholeAt, BlockFits, BlockData, BlockBits, BlockCoded;
    ghost var ok := IsStream(data, blocks);
    ghost var k: nat := 0;
    var bp: nat, pos: nat, bfinal: nat := 0, 0, 0;
    error := 0;
    if ok { StreamingStart(data, blocks, out.data); StreamNonempty(data, blocks); }
    while bfinal == 0
      invariant pos <= |out.data| && error == 0 && (data == [] ==> bfinal == 0)
      invariant bp > 0 ==> !(|data| == 4 && ReadBit(data, 1) == ReadBit(data, 2) == 0)
      invariant bp == 0 ==> bfinal == 0
      invariant ok ==> Streaming(data, blocks, k, bp, out.data, pos) && 0 < |blocks|
      invariant ok ==> if bfinal == 0 then k < |blocks| else k == |blocks| && Decodable(data, blocks)
      decreases if bfinal == 0 then 1 else 0, 8 * |data| - bp
    {
      ghost var b, final := if ok then blocks[k] else Fixed([]), ok && k + 1 == |blocks|;
      ghost var was, from, start := out.data, pos, bp;
      if ok {
        StreamingBlock(data, blocks, k, bp, out.data, pos);
        StreamingRoom(data, blocks, k, bp, out.data, pos);
      }
      error, bp, pos, bfinal := InflateBlock(out, data, bp, pos, b, final);
      if error != 0 { return; }
      if ok { StreamingNext(data, blocks, k, start, was, from, bp, out.data, pos); }
      k := k + 1;
    }
    if ok { StreamingEnd(data, blocks, bp, out.data, pos); }
    ghost var was := out.data;
    out.Resize(pos);
    assert out.data == out.data[..pos] == was[..pos];
  }

  lemma StreamNonempty(data: seq<byte>, blocks: seq<Block>)
    requires IsStream(data, blocks)
    ensures 0 < |blocks|
  {
  }
}
