/** The DEFLATE encoder. */
module Deflate {
  import opened Bits
  import opened BitStream
  import opened Canonical
  import opened Huffman
  import opened Tokens
  import opened Format
  import opened Lz77
  import CL = CodeLengths
  import CoinRows
  import Optimal
  import PackageMerge
  import Inflate

  /** LodePNGCompressSettings, apart from the custom hooks */
  datatype Settings = Settings(btype: nat, use_lz77: bool, windowsize: nat, minmatch: nat, nicematch: nat,
                               lazymatching: bool)

  // ---------------------------------------------------------------- the list of numbers

  lemma FlattenStep(tokens: seq<Token>, k: nat)
    requires k < |tokens|
    ensures Flatten(tokens[..k + 1]) == Flatten(tokens[..k]) + Numbers(tokens[k])
  {
    assert tokens[..k + 1][..k] == tokens[..k];
  }

  lemma {:induction false} FlattenPrefix(tokens: seq<Token>, k: nat)
    requires k <= |tokens|
    ensures |Flatten(tokens[..k])| <= |Flatten(tokens)|
    ensures Flatten(tokens)[..|Flatten(tokens[..k])|] == Flatten(tokens[..k])
    ensures k < |tokens| ==> |Flatten(tokens[..k])| < |Flatten(tokens)|
    decreases |tokens|
  {
    if k == |tokens| {
      assert tokens[..k] == tokens;
    } else {
      var front := tokens[..|tokens| - 1];
      assert front[..k] == tokens[..k];
      FlattenPrefix(front, k);
      assert Flatten(tokens)[..|Flatten(front)|] == Flatten(front);
    }
  }

  /** The next number in the list starts token k. */
  ghost predicate Listing(values: seq<nat>, tokens: seq<Token>, i: nat, k: nat) {
    values == Flatten(tokens) && k <= |tokens| && i == |Flatten(tokens[..k])| <= |values|
  }

  lemma ListingStart(values: seq<nat>, tokens: seq<Token>)
    requires values == Flatten(tokens)
    ensures Listing(values, tokens, 0, 0)
  {
  }

  lemma ListingEnd(values: seq<nat>, tokens: seq<Token>, i: nat, k: nat)
    requires Listing(values, tokens, i, k)
    ensures i <= |values| && k <= |tokens| && (i == |values| <==> k == |tokens|)
  {
    FlattenPrefix(tokens, k);
    assert k == |tokens| ==> tokens[..k] == tokens;
  }

  lemma ListingStep(values: seq<nat>, tokens: seq<Token>, i: nat, k: nat)
    requires Listing(values, tokens, i, k) && k < |tokens|
    ensures i + |Numbers(tokens[k])| <= |values| && values[i..i + |Numbers(tokens[k])|] == Numbers(tokens[k])
    ensures Listing(values, tokens, i + |Numbers(tokens[k])|, k + 1)
  {
    hide Numbers;
    FlattenStep(tokens, k);
    FlattenPrefix(tokens, k + 1);
    var a, b := Flatten(tokens[..k]), Numbers(tokens[k]);
    assert values[i..i + |b|] == values[..i + |b|][i..] == (a + b)[|a|..] == b;
  }

  /** The numbers of a literal or a match, one by one. */
  predicate TokenAt(values: seq<nat>, i: nat, t: Token) {
    match t
    case Literal(b) => i < |values| && values[i] == b
    case Match(lc, le, dc, de) =>
      && i + 3 < |values| && values[i] == lc + FIRST_LENGTH_CODE_INDEX
      && values[i + 1] == le && values[i + 2] == dc && values[i + 3] == de
  }

  function Size(t: Token): nat {
    if t.Literal? then 1 else 4
  }

  lemma ListingToken(values: seq<nat>, tokens: seq<Token>, i: nat, k: nat)
    requires Listing(values, tokens, i, k) && k < |tokens|
    ensures TokenAt(values, i, tokens[k]) && Listing(values, tokens, i + Size(tokens[k]), k + 1)
  {
    hide Listing;
    ListingStep(values, tokens, i, k);
    var n, t := |Numbers(tokens[k])|, tokens[k];
    var s := values[i..i + n];
    assert s[0] == Numbers(t)[0];
    if t.Match? {
      assert s[1] == Numbers(t)[1] && s[2] == Numbers(t)[2] && s[3] == Numbers(t)[3];
    }
  }

  // ---------------------------------------------------------------- writing symbols

  /** addHuffmanSymbol with HuffmanTree_getCode and HuffmanTree_getLength */
  method AddHuffmanSymbol(w: BitWriter, tree: HuffmanTree, symbol: nat, ghost lens: seq<nat>)
    requires w.Valid() && tree.Encodes(lens) && Present(lens, symbol)
    modifies w
    ensures w.Valid() && w.Contents() == old(w.Contents()) + Code(lens, symbol)
  {
    w.AddBitsReversed(tree.GetCode(symbol), tree.GetLength(symbol));
  }

  lemma EncodesFields(tree: HuffmanTree, lens: seq<nat>)
    requires tree.Encodes(lens)
    ensures tree.numcodes == |lens| == tree.lengths.Length && tree.lengths[..] == lens
  {
  }

  /** writeLZ77data */
  method WriteLZ77data(w: BitWriter, values: seq<nat>, tree_ll: HuffmanTree, tree_d: HuffmanTree,
                       ghost ll: seq<nat>, ghost d: seq<nat>, ghost tokens: seq<Token>)
    requires w.Valid() && tree_ll.Encodes(ll) && tree_d.Encodes(d)
    requires values == Flatten(tokens) && AllCoded(ll, d, tokens)
    modifies w
    ensures w.Valid() && w.Contents() == old(w.Contents()) + TokensBits(ll, d, tokens)
  {
    hide Listing, HuffmanTree.Encodes, TokenAt, BitWriter.Valid, BitWriter.Contents, TokenBits, Coded, TokensWritten,
         Flatten;
    var i: nat := 0;
    ghost var k: nat, was := 0, w.Contents();
    ListingStart(values, tokens);
    NoTokens(was, ll, d, tokens);
    while i < |values|
      invariant Listing(values, tokens, i, k) && k <= |tokens|
      invariant tree_ll.Encodes(ll) && tree_d.Encodes(d)
      invariant w.Valid() && TokensWritten(w.Contents(), was, ll, d, tokens, k)
    {
      ListingEnd(values, tokens, i, k);
      ListingToken(values, tokens, i, k);
      TokenCoded(ll, d, tokens, k);
      ghost var mid := w.Contents();
      i := WriteToken(w, values, i, tree_ll, tree_d, ll, d, tokens[k]);
      TokenWritten(w.Contents(), mid, was, ll, d, tokens, k);
      k := k + 1;
    }
    ListingEnd(values, tokens, i, k);
    AllTokensWritten(w.Contents(), was, ll, d, tokens);
  }

  /** The first k tokens have been written. */
  ghost predicate TokensWritten(now: Bitstring, was: Bitstring, ll: seq<nat>, d: seq<nat>, tokens: seq<Token>, k: nat) {
    k <= |tokens| && AllCoded(ll, d, tokens) && now == was + TokensBits(ll, d, tokens[..k])
  }

  lemma NoTokens(was: Bitstring, ll: seq<nat>, d: seq<nat>, tokens: seq<Token>)
    requires AllCoded(ll, d, tokens)
    ensures TokensWritten(was, was, ll, d, tokens, 0)
  {
    assert tokens[..0] == [] && was + [] == was;
  }

  lemma TokenCoded(ll: seq<nat>, d: seq<nat>, tokens: seq<Token>, k: nat)
    requires AllCoded(ll, d, tokens) && k < |tokens|
    ensures Coded(ll, d, tokens[k])
  {
  }

  lemma TokenWritten(now: Bitstring, mid: Bitstring, was: Bitstring, ll: seq<nat>, d: seq<nat>, tokens: seq<Token>,
                     k: nat)
    requires TokensWritten(mid, was, ll, d, tokens, k) && k < |tokens| && Coded(ll, d, tokens[k])
    requires now == mid + TokenBits(ll, d, tokens[k])
    ensures TokensWritten(now, was, ll, d, tokens, k + 1)
  {
    hide TokenBits, Coded;
    TokensBitsStep(ll, d, tokens, k);
  }

  lemma AllTokensWritten(now: Bitstring, was: Bitstring, ll: seq<nat>, d: seq<nat>, tokens: seq<Token>)
    requires TokensWritten(now, was, ll, d, tokens, |tokens|)
    ensures AllCoded(ll, d, tokens) && now == was + TokensBits(ll, d, tokens)
  {
    assert tokens[..|tokens|] == tokens;
  }

  /** One token of writeLZ77data. */
  method WriteToken(w: BitWriter, values: seq<nat>, start: nat, tree_ll: HuffmanTree, tree_d: HuffmanTree,
                    ghost ll: seq<nat>, ghost d: seq<nat>, ghost t: Token)
    returns (i: nat)
    requires w.Valid() && tree_ll.Encodes(ll) && tree_d.Encodes(d) && Coded(ll, d, t)
    requires TokenAt(values, start, t)
    modifies w
    ensures w.Valid() && w.Contents() == old(w.Contents()) + TokenBits(ll, d, t)
    ensures i == start + Size(t)
  {
    hide Code, Lsb, HuffmanTree.Encodes, BitWriter.Valid, BitWriter.Contents, TokenBits;
    i := start;
    var val := values[i];
    TokenBitsAre(ll, d, t, w.Contents());
    AddHuffmanSymbol(w, tree_ll, val, ll);
    if val > 256 {
      var length_index := val - FIRST_LENGTH_CODE_INDEX;
      var n_length_extra_bits := LENGTHEXTRA[length_index];
      i := i + 1;
      var length_extra_bits := values[i];
      i := i + 1;
      var distance_code := values[i];
      var n_distance_extra_bits := DISTANCEEXTRA[distance_code];
      i := i + 1;
      var distance_extra_bits := values[i];
      WriteExtra(w, tree_d, length_extra_bits, n_length_extra_bits, distance_code, distance_extra_bits,
          n_distance_extra_bits, d);
    }
    i := i + 1;
  }

  lemma TokenBitsAre(ll: seq<nat>, d: seq<nat>, t: Token, was: Bitstring)
    requires Coded(ll, d, t)
    ensures was + TokenBits(ll, d, t)
            == match t
               case Literal(b) => was + Code(ll, b)
               case Match(lc, le, dc, de) =>
                 was + Code(ll, lc + FIRST_LENGTH_CODE_INDEX) + Lsb(le, LENGTHEXTRA[lc]) + Code(d, dc)
                 + Lsb(de, DISTANCEEXTRA[dc])
  {
    hide Code, Lsb;
  }

  /** What follows the length code of a match. */
  method WriteExtra(w: BitWriter, tree_d: HuffmanTree, lengthExtra: nat, lengthBits: nat, distance: nat,
                    distanceExtra: nat, distanceBits: nat, ghost d: seq<nat>)
    requires w.Valid() && tree_d.Encodes(d) && Present(d, distance)
    modifies w
    ensures w.Valid()
    ensures w.Contents()
            == old(w.Contents()) + Lsb(lengthExtra, lengthBits) + Code(d, distance) + Lsb(distanceExtra, distanceBits)
  {
    hide Code, Lsb, HuffmanTree.Encodes, BitWriter.Valid, BitWriter.Contents;
    w.AddBits(lengthExtra, lengthBits);
    AddHuffmanSymbol(w, tree_d, distance, d);
    w.AddBits(distanceExtra, distanceBits);
  }

  // ---------------------------------------------------------------- trees from frequencies

  /** HuffmanTree_makeFromFrequencies */
  method MakeFromFrequencies(tree: HuffmanTree, frequencies: seq<nat>, mincodes: nat, numcodes0: nat, maxbitlen: nat)
    returns (error: nat, ghost lens: seq<nat>)
    requires 2 <= mincodes <= numcodes0 == |frequencies| <= 16000 && 0 < maxbitlen
    requires |CoinRows.Symbols(frequencies)| <= Pow2(maxbitlen)
    modifies tree
    ensures error == 0 && tree.Encodes(lens) && fresh(tree.lengths) && fresh(tree.tree1d)
    ensures mincodes <= |lens| <= numcodes0 && Complete(lens, maxbitlen)
    ensures forall i | 0 <= i < numcodes0 && frequencies[i] > 0 :: i < |lens| && lens[i] > 0
    ensures Optimal.Cheapest(lens, frequencies[..|lens|], maxbitlen)
  {
    hide Optimal.Cheapest, CoinRows.Symbols, Pow2, Complete;
    var numcodes := numcodes0;
    while frequencies[numcodes - 1] == 0 && numcodes > mincodes
      invariant mincodes <= numcodes <= numcodes0
      invariant forall i | numcodes <= i < numcodes0 :: frequencies[i] == 0
    {
      numcodes := numcodes - 1;
    }
    PackageMerge.SymbolsGrow(frequencies, numcodes);
    tree.maxbitlen := maxbitlen;
    tree.numcodes := numcodes;
    tree.lengths := new nat[numcodes](_ => 0);
    error := PackageMerge.CodeLengths(tree.lengths, frequencies[..numcodes], numcodes, maxbitlen);
    lens := tree.lengths[..];
    FewInternalNodes(lens, maxbitlen);
    error := tree.MakeFromLengths2(lens);
  }

  /** Every symbol of the tokens has been counted. */
  predicate Counted(ll: seq<nat>, d: seq<nat>, t: Token) {
    match t
    case Literal(b) => b < |ll| && ll[b] > 0
    case Match(lc, _, dc, _) => lc + FIRST_LENGTH_CODE_INDEX < |ll| && ll[lc + FIRST_LENGTH_CODE_INDEX] > 0
                                && dc < |d| && d[dc] > 0
  }

  predicate AtMost(a: seq<nat>, b: seq<nat>) {
    |a| == |b| && forall i | 0 <= i < |a| :: a[i] <= b[i]
  }

  lemma CountedMore(ll: seq<nat>, d: seq<nat>, ll': seq<nat>, d': seq<nat>, tokens: seq<Token>, k: nat)
    requires k <= |tokens| && AtMost(ll, ll') && AtMost(d, d')
    requires forall j | 0 <= j < k :: Counted(ll, d, tokens[j])
    ensures forall j | 0 <= j < k :: Counted(ll', d', tokens[j])
  {
  }

  /** The frequencies of deflateDynamic: literal and length codes with one end code, and distance codes. */
  method CountFrequencies(values: seq<nat>, ghost tokens: seq<Token>)
    returns (frequencies_ll: array<nat>, frequencies_d: array<nat>)
    requires values == Flatten(tokens) && forall j | 0 <= j < |tokens| :: TokenOk(tokens[j])
    ensures fresh(frequencies_ll) && fresh(frequencies_d)
    ensures frequencies_ll.Length == 286 && frequencies_d.Length == 30 && frequencies_ll[END_CODE] == 1
    ensures forall j | 0 <= j < |tokens| :: Counted(frequencies_ll[..], frequencies_d[..], tokens[j])
  {
    hide Listing, Pow2, Flatten;
    frequencies_ll, frequencies_d := new nat[286](_ => 0), new nat[30](_ => 0);
    var i: nat := 0;
    ghost var k: nat := 0;
    ListingStart(values, tokens);
    while i < |values|
      invariant Listing(values, tokens, i, k) && k <= |tokens|
      invariant forall j | 0 <= j < k :: Counted(frequencies_ll[..], frequencies_d[..], tokens[j])
    {
      ListingEnd(values, tokens, i, k);
      ListingToken(values, tokens, i, k);
      ghost var ll, d := frequencies_ll[..], frequencies_d[..];
      assert TokenOk(tokens[k]);
      var symbol := values[i];
      frequencies_ll[symbol] := frequencies_ll[symbol] + 1;
      if symbol > 256 {
        var dist := values[i + 2];
        frequencies_d[dist] := frequencies_d[dist] + 1;
        i := i + 3;
      }
      i := i + 1;
      CountedMore(ll, d, frequencies_ll[..], frequencies_d[..], tokens, k);
      assert Counted(frequencies_ll[..], frequencies_d[..], tokens[k]);
      k := k + 1;
    }
    ListingEnd(values, tokens, i, k);
    frequencies_ll[256] := 1;
  }

  // ---------------------------------------------------------------- the coded code lengths

  lemma {:induction false} FlattenOpsPrefix(ops: seq<CL.Op>, k: nat)
    requires k <= |ops|
    ensures |CL.FlattenOps(ops[..k])| <= |CL.FlattenOps(ops)|
    ensures CL.FlattenOps(ops)[..|CL.FlattenOps(ops[..k])|] == CL.FlattenOps(ops[..k])
    ensures k < |ops| ==> |CL.FlattenOps(ops[..k])| < |CL.FlattenOps(ops)|
    decreases |ops|
  {
    if k == |ops| {
      assert ops[..k] == ops;
    } else {
      var front := ops[..|ops| - 1];
      assert front[..k] == ops[..k];
      FlattenOpsPrefix(front, k);
      assert CL.FlattenOps(ops)[..|CL.FlattenOps(front)|] == CL.FlattenOps(front);
    }
  }

  /** The next number in the list starts operation k. */
  ghost predicate OpsListing(numbers: seq<nat>, ops: seq<CL.Op>, i: nat, k: nat) {
    numbers == CL.FlattenOps(ops) && k <= |ops| && i == |CL.FlattenOps(ops[..k])| <= |numbers|
  }

  lemma OpsListingStart(numbers: seq<nat>, ops: seq<CL.Op>)
    requires numbers == CL.FlattenOps(ops)
    ensures OpsListing(numbers, ops, 0, 0)
  {
  }

  lemma OpsListingEnd(numbers: seq<nat>, ops: seq<CL.Op>, i: nat, k: nat)
    requires OpsListing(numbers, ops, i, k)
    ensures i <= |numbers| && k <= |ops| && (i == |numbers| <==> k == |ops|)
  {
    FlattenOpsPrefix(ops, k);
    assert k == |ops| ==> ops[..k] == ops;
  }

  lemma OpsListingStep(numbers: seq<nat>, ops: seq<CL.Op>, i: nat, k: nat)
    requires OpsListing(numbers, ops, i, k) && k < |ops|
    ensures i + |CL.OpNumbers(ops[k])| <= |numbers|
    ensures numbers[i..i + |CL.OpNumbers(ops[k])|] == CL.OpNumbers(ops[k])
    ensures OpsListing(numbers, ops, i + |CL.OpNumbers(ops[k])|, k + 1)
  {
    hide CL.OpNumbers;
    assert ops[..k + 1][..k] == ops[..k];
    FlattenOpsPrefix(ops, k + 1);
    var a, b := CL.FlattenOps(ops[..k]), CL.OpNumbers(ops[k]);
    assert numbers[i..i + |b|] == numbers[..i + |b|][i..] == (a + b)[|a|..] == b;
  }

  predicate OpAt(numbers: seq<nat>, i: nat, op: CL.Op) {
    && i < |numbers| && numbers[i] == CL.Symbol(op)
    && (!op.Single? ==> i + 1 < |numbers| && numbers[i + 1] == CL.Extra(op))
  }

  function OpSize(op: CL.Op): nat {
    if op.Single? then 1 else 2
  }

  lemma OpsListingOp(numbers: seq<nat>, ops: seq<CL.Op>, i: nat, k: nat)
    requires OpsListing(numbers, ops, i, k) && k < |ops|
    ensures OpAt(numbers, i, ops[k]) && OpsListing(numbers, ops, i + OpSize(ops[k]), k + 1)
  {
    hide OpsListing;
    OpsListingStep(numbers, ops, i, k);
    var n, op := |CL.OpNumbers(ops[k])|, ops[k];
    var s := numbers[i..i + n];
    assert s[0] == CL.OpNumbers(op)[0];
    if !op.Single? {
      assert s[1] == CL.OpNumbers(op)[1];
    }
  }

  lemma {:induction false} OpsAll(ops: seq<CL.Op>, k: nat)
    requires CL.OpsOk(ops) && k < |ops|
    ensures ops[k].Single? ==> ops[k].length <= 15
    decreases |ops|
  {
    if k < |ops| - 1 { OpsAll(ops[..|ops| - 1], k); }
  }

  /** The frequencies of the code length codes. */
  method CountCodeLengthCodes(numbers: seq<nat>, ghost ops: seq<CL.Op>) returns (frequencies_cl: array<nat>)
    requires numbers == CL.FlattenOps(ops) && CL.OpsOk(ops)
    ensures fresh(frequencies_cl) && frequencies_cl.Length == NUM_CODE_LENGTH_CODES
    ensures forall j | 0 <= j < |ops| ::
              CL.Symbol(ops[j]) < NUM_CODE_LENGTH_CODES && frequencies_cl[CL.Symbol(ops[j])] > 0
  {
    hide OpsListing, CL.FlattenOps, CL.OpsOk, CL.ExpandOps;
    frequencies_cl := new nat[NUM_CODE_LENGTH_CODES](_ => 0);
    var i: nat := 0;
    ghost var k: nat := 0;
    OpsListingStart(numbers, ops);
    while i < |numbers|
      invariant OpsListing(numbers, ops, i, k) && k <= |ops|
      invariant forall j | 0 <= j < k ::
        CL.Symbol(ops[j]) < NUM_CODE_LENGTH_CODES && frequencies_cl[CL.Symbol(ops[j])] > 0
    {
      OpsListingEnd(numbers, ops, i, k);
      OpsListingOp(numbers, ops, i, k);
      OpsAll(ops, k);
      frequencies_cl[numbers[i]] := frequencies_cl[numbers[i]] + 1;
      if numbers[i] >= 16 { i := i + 1; }
      i := i + 1;
      k := k + 1;
    }
    OpsListingEnd(numbers, ops, i, k);
  }

  /** The writing of the run-length coded code lengths with the code for code lengths. */
  method WriteCodeLengths(w: BitWriter, numbers: seq<nat>, tree_cl: HuffmanTree, ghost cl: seq<nat>,
                          ghost ops: seq<CL.Op>)
    requires w.Valid() && tree_cl.Encodes(cl)
    requires numbers == CL.FlattenOps(ops) && CL.OpsOk(ops) && OpsCoded(cl, ops)
    modifies w
    ensures w.Valid() && w.Contents() == old(w.Contents()) + OpsBits(cl, ops)
  {
    hide OpsListing, CL.FlattenOps, CL.OpsOk, CL.ExpandOps, HuffmanTree.Encodes, BitWriter.Valid, BitWriter.Contents,
         Code, Lsb, Pow2, OpAt, OpBits;
    var i: nat := 0;
    ghost var k: nat := 0;
    OpsListingStart(numbers, ops);
    while i < |numbers|
      invariant OpsListing(numbers, ops, i, k) && k <= |ops| && tree_cl.Encodes(cl)
      invariant w.Valid() && w.Contents() == old(w.Contents()) + OpsBits(cl, ops[..k])
    {
      OpsListingEnd(numbers, ops, i, k);
      OpsListingOp(numbers, ops, i, k);
      OpsAll(ops, k);
      OpsBitsStep(cl, ops, k);
      i := WriteOp(w, numbers, i, tree_cl, cl, ops[k]);
      k := k + 1;
    }
    OpsListingEnd(numbers, ops, i, k);
    assert ops[..k] == ops;
  }

  /** One code with the extra bits of the repeat codes. */
  method WriteOp(w: BitWriter, numbers: seq<nat>, start: nat, tree_cl: HuffmanTree, ghost cl: seq<nat>, ghost op: CL.Op)
    returns (i: nat)
    requires w.Valid() && tree_cl.Encodes(cl) && Present(cl, CL.Symbol(op))
    requires OpAt(numbers, start, op) && (op.Single? ==> op.length <= 15)
    modifies w
    ensures w.Valid() && w.Contents() == old(w.Contents()) + OpBits(cl, op)
    ensures i == start + OpSize(op)
  {
    hide HuffmanTree.Encodes, BitWriter.Valid, BitWriter.Contents, Code, Pow2, Lsb;
    i := start;
    AddHuffmanSymbol(w, tree_cl, numbers[i], cl);
    assert Lsb(0, 0) == [];
    if numbers[i] == 16 {
      i := i + 1;
      w.AddBits(numbers[i], 2);
    } else if numbers[i] == 17 {
      i := i + 1;
      w.AddBits(numbers[i], 3);
    } else if numbers[i] == 18 {
      i := i + 1;
      w.AddBits(numbers[i], 7);
    }
    i := i + 1;
  }

  /** The lengths of the code length code in the order in which they are stored. */
  predicate InOrder(bitlen_cl: seq<nat>, cl: seq<nat>) {
    |bitlen_cl| <= |cl| == NUM_CODE_LENGTH_CODES
    && forall i | 0 <= i < |bitlen_cl| :: bitlen_cl[i] == cl[CLCL_ORDER[i]]
  }

  /** The lengths of the code length code in their special order, without zeros at the end but at least four. */
  method TrimmedClLengths(tree_cl: HuffmanTree, ghost cl: seq<nat>) returns (bitlen_cl: seq<nat>)
    requires tree_cl.Encodes(cl) && |cl| == NUM_CODE_LENGTH_CODES
    ensures 4 <= |bitlen_cl| <= NUM_CODE_LENGTH_CODES
    ensures InOrder(bitlen_cl, cl) && ClTail(cl, |bitlen_cl|)
    ensures forall i | 0 <= i < |bitlen_cl| ::
              bitlen_cl[i] == cl[if i < 3 then 16 + i else if i == 3 then 0
                                 else if i % 2 == 0 then 6 + i / 2 else (19 - i) / 2]
  {
    hide CLCL_ORDER;
    OrderRange();
    bitlen_cl := [];
    for i := 0 to tree_cl.numcodes
      invariant |bitlen_cl| == i
      invariant forall j | 0 <= j < i :: bitlen_cl[j] == cl[CLCL_ORDER[j]]
    {
      bitlen_cl := bitlen_cl + [tree_cl.GetLength(CLCL_ORDER[i])];
    }
    while bitlen_cl[|bitlen_cl| - 1] == 0 && |bitlen_cl| > 4
      invariant 4 <= |bitlen_cl| <= NUM_CODE_LENGTH_CODES
      invariant forall i | 0 <= i < |bitlen_cl| :: bitlen_cl[i] == cl[CLCL_ORDER[i]]
      invariant forall i | |bitlen_cl| <= i < NUM_CODE_LENGTH_CODES :: cl[CLCL_ORDER[i]] == 0
    {
      bitlen_cl := bitlen_cl[..|bitlen_cl| - 1];
    }
    forall i | 0 <= i < |bitlen_cl|
      ensures bitlen_cl[i] == cl[if i < 3 then 16 + i else if i == 3 then 0
                                 else if i % 2 == 0 then 6 + i / 2 else (19 - i) / 2]
    {
      OrderIs(i);
    }
  }

  lemma OrderRange()
    ensures |CLCL_ORDER| == NUM_CODE_LENGTH_CODES
    ensures forall i | 0 <= i < NUM_CODE_LENGTH_CODES :: CLCL_ORDER[i] < NUM_CODE_LENGTH_CODES
  {
  }

  /** The tokens of a block have codes once their frequencies have been turned into lengths. */
  lemma CountedCoded(f: seq<nat>, g: seq<nat>, ll: seq<nat>, d: seq<nat>, tokens: seq<Token>)
    requires forall j | 0 <= j < |tokens| :: TokenOk(tokens[j]) && Counted(f, g, tokens[j])
    requires forall i | 0 <= i < |f| && f[i] > 0 :: i < |ll| && ll[i] > 0
    requires forall i | 0 <= i < |g| && g[i] > 0 :: i < |d| && d[i] > 0
    ensures AllCoded(ll, d, tokens)
  {
  }

  /** The lengths of both trees in one list. */
  method JoinLengths(tree_ll: HuffmanTree, tree_d: HuffmanTree, ghost ll: seq<nat>, ghost d: seq<nat>)
    returns (bitlen_lld: seq<nat>)
    requires tree_ll.Encodes(ll) && tree_d.Encodes(d)
    ensures bitlen_lld == (if |ll| > 286 then ll[..286] else ll) + (if |d| > 30 then d[..30] else d)
  {
    var numcodes_ll := tree_ll.numcodes;
    if numcodes_ll > 286 { numcodes_ll := 286; }
    var numcodes_d := tree_d.numcodes;
    if numcodes_d > 30 { numcodes_d := 30; }
    bitlen_lld := [];
    for i := 0 to numcodes_ll
      invariant bitlen_lld == ll[..i]
    {
      assert tree_ll.lengths[..][i] == ll[i];
      bitlen_lld := bitlen_lld + [tree_ll.GetLength(i)];
    }
    for i := 0 to numcodes_d
      invariant bitlen_lld == ll[..numcodes_ll] + d[..i]
    {
      assert tree_d.lengths[..][i] == d[i];
      bitlen_lld := bitlen_lld + [tree_d.GetLength(i)];
    }
  }

  /** The trees of a dynamic block for the tokens, and the description of their lengths. */
  method MakeTrees(values: seq<nat>, tree_ll: HuffmanTree, tree_d: HuffmanTree, tree_cl: HuffmanTree,
                   ghost tokens: seq<Token>)
    returns (bitlen_lld_e: seq<nat>, bitlen_cl: seq<nat>, hclen: nat, ghost t: Trees)
    requires values == Flatten(tokens) && forall j | 0 <= j < |tokens| :: TokenOk(tokens[j])
    requires tree_ll != tree_d && tree_ll != tree_cl && tree_d != tree_cl
    modifies tree_ll, tree_d, tree_cl
    ensures TreesOk(t) && AllCoded(t.ll, t.d, tokens)
    ensures tree_ll.Encodes(t.ll) && tree_d.Encodes(t.d) && tree_cl.Encodes(t.cl)
    ensures bitlen_lld_e == CL.FlattenOps(t.ops)
    ensures hclen + 4 == t.hclen <= |bitlen_cl| && InOrder(bitlen_cl, t.cl)
  {
    hide Flatten, Counted, TokenOk, HuffmanTree.Encodes, CL.ExpandOps, CL.FlattenOps, CL.OpsOk, CLCL_ORDER, Kraft, Pow2,
         CL.Symbol, AllCoded, CoinRows.Symbols, CoinRows.SymbolCoins, Optimal.Cheapest, Complete, TreesOk;
    WidthsSuffice();
    OrderRange();
    var frequencies_ll, frequencies_d := CountFrequencies(values, tokens);
    CoinRows.SymbolCount(frequencies_ll[..]);
    CoinRows.SymbolCount(frequencies_d[..]);
    ghost var ll, d, cl, error;
    error, ll := MakeFromFrequencies(tree_ll, frequencies_ll[..], 257, frequencies_ll.Length, 15);
    error, d := MakeFromFrequencies(tree_d, frequencies_d[..], 2, frequencies_d.Length, 15);
    CountedCoded(frequencies_ll[..], frequencies_d[..], ll, d, tokens);
    CompleteBounded(ll, 15);
    CompleteBounded(d, 15);
    var bitlen_lld := JoinLengths(tree_ll, tree_d, ll, d);
    ghost var ops;
    bitlen_lld_e, ops := CL.CompressLengths(bitlen_lld);
    assert bitlen_lld[..|bitlen_lld|] == ll + d;
    var frequencies_cl := CountCodeLengthCodes(bitlen_lld_e, ops);
    CoinRows.SymbolCount(frequencies_cl[..]);
    error, cl := MakeFromFrequencies(tree_cl, frequencies_cl[..], frequencies_cl.Length, frequencies_cl.Length, 7);
    bitlen_cl := TrimmedClLengths(tree_cl, cl);
    hclen := NumClLengths(bitlen_cl, cl);
    t := Trees(ll, d, cl, hclen + 4, ops);
    TreesMade(t);
  }

  /** HCLEN, which drops trailing zeros once more. */
  method NumClLengths(bitlen_cl: seq<nat>, ghost cl: seq<nat>) returns (hclen: nat)
    requires 4 <= |bitlen_cl| <= NUM_CODE_LENGTH_CODES == |cl| && InOrder(bitlen_cl, cl) && ClTail(cl, |bitlen_cl|)
    ensures hclen + 4 <= |bitlen_cl| && ClTail(cl, hclen + 4)
  {
    hide CLCL_ORDER;
    OrderRange();
    hclen := |bitlen_cl| - 4;
    while bitlen_cl[hclen + 4 - 1] == 0 && hclen > 0
      invariant hclen + 4 <= |bitlen_cl|
      invariant ClTail(cl, hclen + 4)
    {
      hclen := hclen - 1;
    }
  }

  lemma CompleteBounded(lens: seq<nat>, L: nat)
    requires Complete(lens, L)
    ensures Bounded(lens, L)
  {
    hide Kraft;
  }

  /** What there is to know about the trees of a block. */
  lemma TreesMade(t: Trees)
    requires 257 <= |t.ll| <= 288 && 1 <= |t.d| <= 32
    requires |t.cl| == NUM_CODE_LENGTH_CODES && 4 <= t.hclen <= NUM_CODE_LENGTH_CODES && ClTail(t.cl, t.hclen)
    requires Complete(t.cl, 7) && Complete(t.ll, 15) && Complete(t.d, 15)
    requires CL.OpsOk(t.ops) && CL.ExpandOps(t.ops) == t.ll + t.d && OpsCoded(t.cl, t.ops) && t.ll[END_CODE] > 0
    ensures TreesOk(t)
  {
    hide Roomy, Complete, ClTail, CL.OpsOk, CL.ExpandOps, OpsCoded, PadLl, PadD;
    CompleteTrees(t);
  }

  lemma WidthsSuffice()
    ensures 286 <= Pow2(15) && 19 <= Pow2(7)
  {
    SmallPowers();
  }

  /** The writing of HLIT, HDIST, HCLEN and all code lengths. */
  method WriteTrees(w: BitWriter, numcodes_ll: nat, numcodes_d: nat, hclen: nat, bitlen_cl: seq<nat>,
                    bitlen_lld_e: seq<nat>, tree_cl: HuffmanTree, ghost t: Trees)
    requires w.Valid() && TreesOk(t) && tree_cl.Encodes(t.cl)
    requires numcodes_ll == |t.ll| && numcodes_d == |t.d|
    requires bitlen_lld_e == CL.FlattenOps(t.ops) && hclen + 4 == t.hclen <= |bitlen_cl| && InOrder(bitlen_cl, t.cl)
    modifies w
    ensures w.Valid() && w.Contents() == old(w.Contents()) + TreesBits(t)
  {
    hide TreesOk, HuffmanTree.Encodes, BitWriter.Valid, BitWriter.Contents, Lsb, OpsBits, CL.FlattenOps, CL.OpsOk,
         CL.ExpandOps, Roomy, PadLl, PadD, OpsCoded, TreesBits, ClBits, Pow2, Code;
    TreesSizes(t);
    TreesForm(t);
    w.AddBits(numcodes_ll - 257, 5);
    w.AddBits(numcodes_d - 1, 5);
    w.AddBits(hclen, 4);
    WriteClLengths(w, bitlen_cl, hclen, t.cl);
    WriteCodeLengths(w, bitlen_lld_e, tree_cl, t.cl, t.ops);
  }

  method WriteClLengths(w: BitWriter, bitlen_cl: seq<nat>, hclen: nat, ghost cl: seq<nat>)
    requires w.Valid() && hclen + 4 <= |bitlen_cl| && InOrder(bitlen_cl, cl)
    modifies w
    ensures w.Valid() && w.Contents() == old(w.Contents()) + ClBits(cl, hclen + 4)
  {
    hide BitWriter.Valid, BitWriter.Contents, Lsb, Pow2, CLCL_ORDER;
    OrderRange();
    for i := 0 to hclen + 4
      invariant w.Valid() && w.Contents() == old(w.Contents()) + ClBits(cl, i)
    {
      w.AddBits(bitlen_cl[i], 3);
    }
  }

  // ---------------------------------------------------------------- blocks

  /** The error that encodeLZ77 reports for the settings, if it is used at all. */
  function SettingsError(s: Settings): nat {
    if !s.use_lz77 then 0
    else if s.windowsize <= 0 || s.windowsize > 32768 then 60
    else if !WindowOk(s.windowsize) then 90
    else 0
  }

  /** The tokens that stand for data[a..b] without any matches. */
  function Literals(data: seq<byte>, a: nat, b: nat): (t: seq<Token>)
    requires a <= b <= |data|
  {
    if a == b then [] else Literals(data, a, b - 1) + [Literal(data[b - 1])]
  }

  lemma {:induction false} LiteralsDone(data: seq<byte>, a: nat, b: nat)
    requires a <= b <= |data|
    ensures Done(data, a, b, Literals(data, a, b), data[a..b])
  {
    if a < b {
      LiteralsDone(data, a, b - 1);
      var front := Literals(data, a, b - 1);
      DoneLiteral(data, a, b - 1, front, data[a..b - 1]);
    }
  }

  lemma {:induction false} SensibleOk(out: seq<byte>, tokens: seq<Token>, i: nat)
    requires Sensible(out, tokens) && i < |tokens|
    ensures TokenOk(tokens[i])
    decreases |tokens|
  {
    if i < |tokens| - 1 { SensibleOk(out, tokens[..|tokens| - 1], i); }
  }

  lemma DoneTokens(data: seq<byte>, a: nat, b: nat, tokens: seq<Token>, values: seq<nat>)
    requires Done(data, a, b, tokens, values)
    ensures values == Flatten(tokens) && forall j | 0 <= j < |tokens| :: TokenOk(tokens[j])
  {
    forall j | 0 <= j < |tokens| ensures TokenOk(tokens[j]) { SensibleOk(data[..a], tokens, j); }
  }

  /**
   * deflateDynamic without LZ77 copies the bytes into a vector that is as long as the block, but at the
   * positions that they have in the whole input. Tells whether every write stays within the vector.
   */
  method CopyPlain(data: seq<byte>, datapos: nat, dataend: nat) returns (within: bool, lz77_encoded: seq<nat>)
    requires datapos <= dataend <= |data|
    ensures within <==> datapos == 0 || datapos == dataend
    ensures within ==> lz77_encoded == data[datapos..dataend]
  {
    var v := new nat[dataend - datapos](_ => 0);
    within := true;
    for i := datapos to dataend
      invariant within && (i == datapos || i <= v.Length)
      invariant datapos == 0 ==> v[..i] == data[..i]
    {
      if i >= v.Length { return false, []; }
      v[i] := data[i];
    }
    lz77_encoded := v[..];
    assert datapos == 0 ==> v[..dataend] == v[..] && data[..dataend] == data[0..dataend];
  }

  /** The numbers that are to be Huffman coded. */
  method Tokenize(hash: Hash, data: seq<byte>, datapos: nat, dataend: nat, s: Settings, ghost k: nat)
    returns (defined: bool, error: nat, lz77_encoded: seq<nat>, ghost tokens: seq<Token>)
    requires datapos <= dataend <= |data|
    requires s.use_lz77 && WindowOk(s.windowsize) ==> s.windowsize == Pow2(k) && hash.Valid(data, k, datapos)
    modifies hash.head, hash.val, hash.chain, hash.zeros
    ensures defined <==> s.use_lz77 || datapos == 0 || datapos == dataend
    ensures error == SettingsError(s)
    ensures defined && error == 0 ==> Done(data, datapos, dataend, tokens, lz77_encoded)
    ensures error == 0 && s.use_lz77 ==> hash.Valid(data, k, dataend)
  {
    hide Done, Pow2;
    if s.use_lz77 {
      defined := true;
      error, lz77_encoded, tokens :=
        EncodeLZ77(hash, data, datapos, dataend, s.windowsize, s.minmatch, s.nicematch, s.lazymatching, k);
    } else {
      error, tokens := 0, Literals(data, datapos, dataend);
      defined, lz77_encoded := CopyPlain(data, datapos, dataend);
      LiteralsDone(data, datapos, dataend);
    }
  }

  /** The block b turns the first datapos bytes of the data into the first dataend bytes. */
  ghost predicate Covers(data: seq<byte>, datapos: nat, dataend: nat, b: Block) {
    && datapos <= dataend <= |data| && BlockCoded(b) && b != Stored([]) && BlockFits(data[..datapos], b)
    && BlockData(data[..datapos], b) == data[..dataend]
  }

  lemma FixedCovers(data: seq<byte>, a: nat, b: nat, tokens: seq<Token>, values: seq<nat>)
    requires Done(data, a, b, tokens, values)
    ensures Covers(data, a, b, Fixed(tokens)) && AllCoded(FixedLengths(), FixedDistances(), tokens)
  {
    hide FixedLengths, FixedDistances;
    DoneTokens(data, a, b, tokens, values);
    FixedCoded(tokens);
  }

  lemma DynamicCovers(data: seq<byte>, a: nat, b: nat, tokens: seq<Token>, values: seq<nat>, t: Trees)
    requires Done(data, a, b, tokens, values) && TreesOk(t) && AllCoded(t.ll, t.d, tokens)
    ensures Covers(data, a, b, Dynamic(t, tokens))
  {
    hide TreesOk, AllCoded;
  }

  /** BFINAL and the two bits of BTYPE */
  method WriteHeader(w: BitWriter, final: bool, first: bool, second: bool)
    requires w.Valid()
    modifies w
    ensures w.Valid() && w.Contents() == old(w.Contents()) + [final, first, second]
  {
    hide BitWriter.Valid, BitWriter.Contents;
    w.AddBit(final);
    w.AddBit(first);
    w.AddBit(second);
  }

  lemma FixedBlockBits(p: nat, tokens: seq<Token>, final: bool)
    requires AllCoded(FixedLengths(), FixedDistances(), tokens)
    ensures Present(FixedLengths(), END_CODE)
    ensures BlockBits(p, Fixed(tokens), final)
            == [final, true, false]
               + (TokensBits(FixedLengths(), FixedDistances(), tokens) + Code(FixedLengths(), END_CODE))
  {
    hide FixedLengths, FixedDistances, TokensBits, Code, AllCoded;
    FixedCodesEnd();
  }

  lemma Associate(a: Bitstring, b: Bitstring, c: Bitstring, d: Bitstring)
    ensures a + b + c + d == a + (b + (c + d))
  {
  }

  /** The tree has arrays of its own. */
  ghost predicate Apart(tree: HuffmanTree, hash: Hash)
    reads tree
  {
    var own: set<object> := {tree.tree1d, tree.lengths};
    && hash.head as object !in own && hash.val as object !in own
    && hash.chain as object !in own && hash.zeros as object !in own
  }

  /** The data of a fixed block, LZ77 encoded or not. */
  method WriteFixedData(w: BitWriter, hash: Hash, data: seq<byte>, datapos: nat, dataend: nat, s: Settings,
                        tree_ll: HuffmanTree, tree_d: HuffmanTree, ghost k: nat)
    returns (error: nat, ghost tokens: seq<Token>)
    requires w.Valid() && datapos <= dataend <= |data|
    requires tree_ll.Encodes(FixedLengths()) && tree_d.Encodes(FixedDistances())
    requires Apart(tree_ll, hash) && Apart(tree_d, hash)
    requires s.use_lz77 && WindowOk(s.windowsize) ==> s.windowsize == Pow2(k) && hash.Valid(data, k, datapos)
    modifies w, hash.head, hash.val, hash.chain, hash.zeros
    ensures w.Valid() && error == SettingsError(s)
    ensures error == 0 ==>
              && Covers(data, datapos, dataend, Fixed(tokens)) && AllCoded(FixedLengths(), FixedDistances(), tokens)
              && w.Contents() == old(w.Contents()) + TokensBits(FixedLengths(), FixedDistances(), tokens)
    ensures error == 0 && s.use_lz77 ==> hash.Valid(data, k, dataend)
  {
    hide Done, Covers, FixedLengths, FixedDistances, HuffmanTree.Encodes, BitWriter.Valid, BitWriter.Contents,
         TokensBits, AllCoded, Pow2, Flatten, TokenOk, Literals;
    if s.use_lz77 {
      var lz77_encoded;
      error, lz77_encoded, tokens :=
        EncodeLZ77(hash, data, datapos, dataend, s.windowsize, s.minmatch, s.nicematch, s.lazymatching, k);
      if error == 0 {
        FixedCovers(data, datapos, dataend, tokens, lz77_encoded);
        DoneTokens(data, datapos, dataend, tokens, lz77_encoded);
        WriteLZ77data(w, lz77_encoded, tree_ll, tree_d, FixedLengths(), FixedDistances(), tokens);
      }
    } else {
      error, tokens := 0, Literals(data, datapos, dataend);
      LiteralsDone(data, datapos, dataend);
      FixedCovers(data, datapos, dataend, tokens, data[datapos..dataend]);
      WriteLiterals(w, data, datapos, dataend, tree_ll);
    }
  }

  /** deflateFixed */
  method DeflateFixed(w: BitWriter, hash: Hash, data: seq<byte>, datapos: nat, dataend: nat, s: Settings, final: bool,
                      ghost k: nat)
    returns (error: nat, ghost b: Block)
    requires w.Valid() && datapos <= dataend <= |data|
    requires s.use_lz77 && WindowOk(s.windowsize) ==> s.windowsize == Pow2(k) && hash.Valid(data, k, datapos)
    modifies w, hash.head, hash.val, hash.chain, hash.zeros
    ensures w.Valid() && error == SettingsError(s)
    ensures error == 0 ==>
              && Covers(data, datapos, dataend, b)
              && w.Contents() == old(w.Contents()) + BlockBits(|old(w.Contents())|, b, final)
    ensures error == 0 && s.use_lz77 ==> hash.Valid(data, k, dataend)
  {
    hide Covers, FixedLengths, FixedDistances, HuffmanTree.Encodes, HuffmanTree.Decodes, BitWriter.Valid, Hash.Valid,
         BitWriter.Contents, TokensBits, AllCoded, Code, Pow2, BlockBits, SettingsError;
    ghost var before := w.Contents();
    var tree_ll := new HuffmanTree();
    var tree_d := new HuffmanTree();
    Inflate.GenerateFixedLitLenTree(tree_ll);
    Inflate.GenerateFixedDistanceTree(tree_d);
    WriteHeader(w, final, true, false);
    ghost var tokens;
    error, tokens := WriteFixedData(w, hash, data, datapos, dataend, s, tree_ll, tree_d, k);
    b := Fixed(tokens);
    if error == 0 {
      FixedBlockBits(|before|, tokens, final);
      AddHuffmanSymbol(w, tree_ll, 256, FixedLengths());
      Associate(before, [final, true, false], TokensBits(FixedLengths(), FixedDistances(), tokens),
                Code(FixedLengths(), END_CODE));
    }
  }

  /** The bytes of the input, Huffman coded one by one. */
  method WriteLiterals(w: BitWriter, data: seq<byte>, datapos: nat, dataend: nat, tree_ll: HuffmanTree)
    requires w.Valid() && datapos <= dataend <= |data| && tree_ll.Encodes(FixedLengths())
    modifies w
    ensures w.Valid() && AllCoded(FixedLengths(), FixedDistances(), Literals(data, datapos, dataend))
    ensures w.Contents() == old(w.Contents())
                            + TokensBits(FixedLengths(), FixedDistances(), Literals(data, datapos, dataend))
  {
    hide FixedLengths, FixedDistances, HuffmanTree.Encodes, BitWriter.Valid, BitWriter.Contents, Code, Pow2;
    for i := datapos to dataend
      invariant w.Valid() && tree_ll.Encodes(FixedLengths())
      invariant AllCoded(FixedLengths(), FixedDistances(), Literals(data, datapos, i))
      invariant w.Contents() == old(w.Contents())
                                + TokensBits(FixedLengths(), FixedDistances(), Literals(data, datapos, i))
    {
      LiteralsStep(data, datapos, i);
      AddHuffmanSymbol(w, tree_ll, data[i], FixedLengths());
    }
  }

  lemma LiteralsStep(data: seq<byte>, a: nat, i: nat)
    requires a <= i < |data| && AllCoded(FixedLengths(), FixedDistances(), Literals(data, a, i))
    ensures Present(FixedLengths(), data[i])
    ensures AllCoded(FixedLengths(), FixedDistances(), Literals(data, a, i + 1))
    ensures TokensBits(FixedLengths(), FixedDistances(), Literals(data, a, i + 1))
            == TokensBits(FixedLengths(), FixedDistances(), Literals(data, a, i)) + Code(FixedLengths(), data[i])
  {
    hide Code;
    assert Literals(data, a, i + 1)[..|Literals(data, a, i)|] == Literals(data, a, i);
  }

  lemma DynamicBlockBits(p: nat, t: Trees, tokens: seq<Token>, final: bool)
    requires TreesOk(t) && AllCoded(t.ll, t.d, tokens)
    ensures Present(t.ll, END_CODE)
    ensures BlockBits(p, Dynamic(t, tokens), final)
            == [final, false, true] + (TreesBits(t) + (TokensBits(t.ll, t.d, tokens) + Code(t.ll, END_CODE)))
  {
    hide TokensBits, Code, AllCoded, TreesBits, CL.OpsOk, CL.ExpandOps, Roomy, PadLl, PadD;
  }

  /** deflateDynamic */
  method DeflateDynamic(w: BitWriter, hash: Hash, data: seq<byte>, datapos: nat, dataend: nat, s: Settings, final: bool,
                        ghost k: nat)
    returns (defined: bool, error: nat, ghost b: Block)
    requires w.Valid() && datapos <= dataend <= |data|
    requires s.use_lz77 && WindowOk(s.windowsize) ==> s.windowsize == Pow2(k) && hash.Valid(data, k, datapos)
    modifies w, hash.head, hash.val, hash.chain, hash.zeros
    ensures defined <==> s.use_lz77 || datapos == 0 || datapos == dataend
    ensures w.Valid() && error == SettingsError(s)
    ensures defined && error == 0 ==>
              && Covers(data, datapos, dataend, b)
              && w.Contents() == old(w.Contents()) + BlockBits(|old(w.Contents())|, b, final)
    ensures error == 0 && s.use_lz77 ==> hash.Valid(data, k, dataend)
  {
    hide Done, Covers, HuffmanTree.Encodes, HuffmanTree.Decodes, BitWriter.Valid, InOrder, Flatten, CL.FlattenOps,
         TreesOk, BitWriter.Contents, TokensBits, AllCoded, Code, Pow2, BlockBits, TreesBits, TokenOk, SettingsError;
    ghost var tokens, t;
    var lz77_encoded;
    defined, error, lz77_encoded, tokens := Tokenize(hash, data, datapos, dataend, s, k);
    b := Fixed([]);
    if !defined || error != 0 { return; }
    DoneTokens(data, datapos, dataend, tokens, lz77_encoded);
    var tree_ll := new HuffmanTree();
    var tree_d := new HuffmanTree();
    var tree_cl := new HuffmanTree();
    var bitlen_lld_e, bitlen_cl, hclen;
    bitlen_lld_e, bitlen_cl, hclen, t := MakeTrees(lz77_encoded, tree_ll, tree_d, tree_cl, tokens);
    DynamicCovers(data, datapos, dataend, tokens, lz77_encoded, t);
    error := WriteDynamic(w, lz77_encoded, tree_ll, tree_d, tree_cl, bitlen_lld_e, bitlen_cl, hclen, final, tokens, t);
    b := Dynamic(t, tokens);
  }

  /** The part of deflateDynamic that writes everything into the output. */
  method WriteDynamic(w: BitWriter, lz77_encoded: seq<nat>, tree_ll: HuffmanTree, tree_d: HuffmanTree,
                      tree_cl: HuffmanTree, bitlen_lld_e: seq<nat>, bitlen_cl: seq<nat>, hclen: nat, final: bool,
                      ghost tokens: seq<Token>, ghost t: Trees)
    returns (error: int)
    requires w.Valid() && lz77_encoded == Flatten(tokens) && TreesOk(t) && AllCoded(t.ll, t.d, tokens)
    requires tree_ll.Encodes(t.ll) && tree_d.Encodes(t.d) && tree_cl.Encodes(t.cl)
    requires bitlen_lld_e == CL.FlattenOps(t.ops) && hclen + 4 == t.hclen <= |bitlen_cl| && InOrder(bitlen_cl, t.cl)
    modifies w
    ensures w.Valid() && error == 0
    ensures w.Contents() == old(w.Contents()) + BlockBits(|old(w.Contents())|, Dynamic(t, tokens), final)
  {
    hide HuffmanTree.Encodes, BitWriter.Valid, InOrder, Flatten, CL.FlattenOps, TreesOk, BitWriter.Contents, TokensBits,
         AllCoded, Code, BlockBits, TreesBits, Roomy, PadLl, PadD, CL.OpsOk, CL.ExpandOps, OpsCoded, Pow2;
    ghost var before := w.Contents();
    TreesSizes(t);
    EncodesFields(tree_ll, t.ll);
    EncodesFields(tree_d, t.d);
    DynamicBlockBits(|before|, t, tokens, final);
    WriteHeader(w, final, false, true);
    WriteTrees(w, tree_ll.numcodes, tree_d.numcodes, hclen, bitlen_cl, bitlen_lld_e, tree_cl, t);
    WriteLZ77data(w, lz77_encoded, tree_ll, tree_d, t.ll, t.d, tokens);
    if tree_ll.GetLength(256) == 0 { return 64; }
    AddHuffmanSymbol(w, tree_ll, 256, t.ll);
    Associate5(before, [final, false, true], TreesBits(t), TokensBits(t.ll, t.d, tokens), Code(t.ll, END_CODE));
    error := 0;
  }

  lemma Associate5(a: Bitstring, b: Bitstring, c: Bitstring, d: Bitstring, e: Bitstring)
    ensures a + b + c + d + e == a + (b + (c + (d + e)))
  {
  }

  // ---------------------------------------------------------------- streams

  /** The first i blocks stand for the first pos bytes of the data and have these bits; the rest is still open. */
  ghost predicate Streamed(data: seq<byte>, blocks: seq<Block>, i: nat, pos: nat, bits: Bitstring) {
    && i <= |blocks| && pos <= |data|
    && Stored([]) !in blocks && (forall j | 0 <= j < |blocks| :: BlockCoded(blocks[j]))
    && StreamFits(blocks, i) && StreamData(blocks, i) == data[..pos] && bits == StreamBits(blocks, i)
  }

  lemma {:induction false} StreamFrame(a: seq<Block>, b: seq<Block>, n: nat)
    requires n <= |a| == |b| && forall j | 0 <= j < |a| :: BlockCoded(a[j]) && BlockCoded(b[j])
    requires forall j | 0 <= j < n :: a[j] == b[j]
    ensures StreamBits(a, n) == StreamBits(b, n)
    ensures StreamFits(a, n) <==> StreamFits(b, n)
    ensures StreamFits(a, n) ==> StreamData(a, n) == StreamData(b, n)
  {
    hide BlockBits, BlockCoded, BlockFits, BlockData;
    if n > 0 { StreamFrame(a, b, n - 1); }
  }

  lemma StreamedStart(data: seq<byte>, n: nat)
    ensures Streamed(data, seq(n, _ => Fixed([])), 0, 0, [])
  {
  }

  lemma StreamedStep(data: seq<byte>, blocks: seq<Block>, i: nat, pos: nat, bits: Bitstring, pos': nat, b: Block)
    requires Streamed(data, blocks, i, pos, bits) && i < |blocks| && Covers(data, pos, pos', b)
    ensures Streamed(data, blocks[i := b], i + 1, pos', bits + BlockBits(|bits|, b, i + 1 == |blocks|))
  {
    hide BlockBits, BlockCoded, BlockFits, BlockData;
    StreamFrame(blocks, blocks[i := b], i);
  }

  lemma StreamedEnd(data: seq<byte>, blocks: seq<Block>, bits: Bitstring, out: seq<byte>)
    requires blocks != [] && Streamed(data, blocks, |blocks|, |data|, bits) && At(BitsOf(out), 0, bits)
    ensures Decodable(out, blocks) && StreamData(blocks, |blocks|) == data
  {
    hide BlockCoded, StreamFits, StreamData, StreamBits, BitsOf, At;
    assert blocks[|blocks| - 1] in blocks;
  }

  /** deflateNoCompression */
  method DeflateNoCompression(data: seq<byte>) returns (out: seq<byte>, ghost blocks: seq<Block>)
    ensures data == [] ==> out == []
    ensures data != [] ==> Decodable(out, blocks) && StreamData(blocks, |blocks|) == data
  {
    hide Streamed, IsStream, StreamData, BlockBits, BitsOf;
    var numdeflateblocks: nat := (|data| + 65534) / 65535;
    var datapos: nat := 0;
    out := [];
    blocks := seq(numdeflateblocks, _ => Fixed([]));
    StreamedStart(data, numdeflateblocks);
    assert BitsOf([]) == [];
    for i := 0 to numdeflateblocks
      invariant datapos == (if i == numdeflateblocks then |data| else 65535 * i) && datapos <= |data|
      invariant i == 0 ==> out == []
      invariant |blocks| == numdeflateblocks && Streamed(data, blocks, i, datapos, BitsOf(out))
    {
      var bfinal: byte := if i == numdeflateblocks - 1 then 1 else 0;
      var btype: nat := 0;
      var firstbyte: byte := (bfinal + btype % 2 * 2 + btype / 2 % 2 * 4) % 256;
      var len: nat := 65535;
      if |data| - datapos < 65535 { len := |data| - datapos; }
      var nlen := 65535 - len;
      ghost var before, start := out, datapos;
      out := out + [firstbyte] + [len % 256] + [len / 256] + [nlen % 256] + [nlen / 256];
      ghost var header := out;
      var j: nat := 0;
      while j < 65535 && datapos < |data|
        invariant j == datapos - start <= 65535 && start <= datapos <= |data|
        invariant out == header + data[start..datapos]
      {
        out := out + [data[datapos]];
        datapos := datapos + 1;
        j := j + 1;
      }
      ghost var b := Stored(data[start..datapos]);
      StoredBlockBits(before, data[start..datapos], bfinal == 1);
      StreamedStep(data, blocks, i, start, BitsOf(before), datapos, b);
      blocks := blocks[i := b];
    }
    if data != [] {
      assert At(BitsOf(out), 0, BitsOf(out));
      StreamedEnd(data, blocks, BitsOf(out), out);
    }
  }

  /** A stored block as deflateNoCompression writes it, byte by byte. */
  lemma StoredBlockBits(out: seq<byte>, x: seq<byte>, final: bool)
    requires |x| <= 65535
    ensures var n := 65535 - |x|;
            BitsOf(out + [if final then 1 else 0] + [|x| % 256] + [|x| / 256] + [n % 256] + [n / 256] + x)
            == BitsOf(out) + BlockBits(8 * |out|, Stored(x), final)
  {
    hide BitsOf, Lsb;
    var n := 65535 - |x|;
    HeaderBytes(out, if final then 1 else 0, |x|, n, x);
    FirstByte(8 * |out|, final);
    var h, p := [final, false, false], Padding(8 * |out| + 3);
    var r := Lsb(|x|, 16) + Lsb(n, 16) + BitsOf(x);
    assert h + p + r == h + (p + r);
  }

  lemma FirstByte(p: nat, final: bool)
    requires p % 8 == 0
    ensures ByteBits(if final then 1 else 0) == [final, false, false] + Padding(p + 3)
  {
    var b: byte := if final then 1 else 0;
    ByteBitsAt(b);
    forall k | 0 < k < 8 ensures !ByteBit(b, k) { ShrZero(k - 1); }
  }

  lemma HeaderBytes(out: seq<byte>, first: byte, m: nat, n: nat, x: seq<byte>)
    requires m < 65536 && n < 65536
    ensures BitsOf(out + [first] + [m % 256] + [m / 256] + [n % 256] + [n / 256] + x)
            == BitsOf(out) + (ByteBits(first) + (Lsb(m, 16) + Lsb(n, 16) + BitsOf(x)))
  {
    hide BitsOf, Lsb, ByteBits;
    var o1 := out + [first];
    var o2 := o1 + [m % 256];
    var o3 := o2 + [m / 256];
    var o4 := o3 + [n % 256];
    BitsOfAppend(out, first);
    BitsOfAppend(o1, m % 256);
    BitsOfAppend(o2, m / 256);
    BitsOfAppend(o3, n % 256);
    BitsOfAppend(o4, n / 256);
    BitsOfConcat(o4 + [n / 256], x);
    TwoBytes(m);
    TwoBytes(n);
    Regroup(BitsOf(out), ByteBits(first), ByteBits(m % 256), ByteBits(m / 256), ByteBits(n % 256), ByteBits(n / 256),
        BitsOf(x));
  }

  lemma Regroup(o: Bitstring, a: Bitstring, b: Bitstring, c: Bitstring, d: Bitstring, e: Bitstring, x: Bitstring)
    ensures o + a + b + c + d + e + x == o + (a + (b + c + (d + e) + x))
  {
  }

  /** The number of blocks: all but the last are full, and together they hold everything. */
  lemma BlockCount(insize: nat, blocksize: nat, n: nat)
    requires blocksize > 0
    requires n == if (insize + blocksize - 1) / blocksize == 0 then 1 else (insize + blocksize - 1) / blocksize
    ensures (n - 1) * blocksize <= insize <= n * blocksize
    ensures n == 1 <==> insize <= blocksize
    ensures n > 1 ==> (n - 1) * blocksize < insize
  {
    var q := (insize + blocksize - 1) / blocksize;
    DivBounds(insize + blocksize - 1, blocksize, q);
    MulSum(q, 1, blocksize);
    MulSum(q - 1, 1, blocksize);
    if q >= 2 { MulMono(2, q, blocksize); }
  }

  lemma DivBounds(v: nat, d: nat, q: nat)
    requires d > 0 && q == v / d
    ensures q * d <= v < (q + 1) * d
  {
    MulSum(q, 1, d);
  }

  /** Where block i starts; after the last block, the end of the input. */
  function StartOf(i: nat, blocksize: nat, n: nat, insize: nat): nat {
    if i == n then insize else i * blocksize
  }

  lemma StartStep(i: nat, blocksize: nat, n: nat, insize: nat)
    requires i < n && (n - 1) * blocksize <= insize <= n * blocksize
    ensures StartOf(i, blocksize, n, insize) == i * blocksize <= insize
    ensures StartOf(i + 1, blocksize, n, insize)
            == if i * blocksize + blocksize > insize then insize else i * blocksize + blocksize
  {
    MulMono(i, n - 1, blocksize);
    MulSum(i, 1, blocksize);
    if i + 1 < n { MulMono(i + 1, n - 1, blocksize); }
  }

  /**
   * For which inputs the source does something defined: with type 1 it divides by the size of the input,
   * and with type 2 and without LZ77 all blocks after the first one write outside of their vectors.
   */
  predicate Defined(data: seq<byte>, s: Settings) {
    && (s.btype == 1 ==> data != [])
    && (s.btype == 2 && !s.use_lz77 ==> |data| <= 65535)
  }

  /**
   * lodepng_deflatev. The settings are checked only when a block is written. The model stops, with
   * `defined` unset, where the source would divide by zero or write outside of a vector.
   */
  method DeflateV(data: seq<byte>, s: Settings)
    returns (defined: bool, error: nat, out: seq<byte>, ghost blocks: seq<Block>)
    ensures defined <==> Defined(data, s)
    ensures defined ==> error == if s.btype > 2 then 61 else if s.btype == 0 then 0 else SettingsError(s)
    ensures defined && error == 0 && (s.btype == 0 ==> data != []) ==>
              Decodable(out, blocks) && StreamData(blocks, |blocks|) == data
    ensures s.btype == 0 && data == [] ==> out == []
  {
    hide IsStream, StreamData, Streamed, BitWriter.Valid, BitWriter.Contents, SettingsError, Covers, BlockBits, Pow2,
         StartOf;
    out, blocks := [], [];
    defined := true;
    var blocksize: nat;
    if s.btype > 2 {
      error := 61;
      return;
    } else if s.btype == 0 {
      out, blocks := DeflateNoCompression(data);
      error := 0;
      return;
    } else if s.btype == 1 {
      blocksize := |data|;
      if blocksize == 0 { return false, 0, [], []; }
    } else {
      blocksize := |data| / 8 + 8;
      if blocksize < 65535 { blocksize := 65535; }
    }
    var numdeflateblocks: nat := (|data| + blocksize - 1) / blocksize;
    if numdeflateblocks == 0 { numdeflateblocks := 1; }
    BlockCount(|data|, blocksize, numdeflateblocks);
    defined, error, out, blocks := DeflateBlocks(data, s, blocksize, numdeflateblocks);
  }

  /** Without LZ77 exactly the first block of type 2 keeps within its vector (see CopyPlain). */
  lemma OnlyFirstWithin(i: nat, blocksize: nat, n: nat, insize: nat)
    requires i < n && (n - 1) * blocksize <= insize <= n * blocksize
    requires n > 1 ==> blocksize > 0 && (n - 1) * blocksize < insize
    ensures var start, end := StartOf(i, blocksize, n, insize), StartOf(i + 1, blocksize, n, insize);
            start == 0 || start == end <==> i == 0
  {
    StartStep(i, blocksize, n, insize);
    if i > 0 {
      MulMono(1, i, blocksize);
    }
  }

  /** The power of two that an acceptable window size is. */
  lemma WindowPower(windowsize: nat) returns (k: nat)
    ensures WindowOk(windowsize) ==> windowsize == Pow2(k)
  {
    k := 0;
    if WindowOk(windowsize) { k := PowerOfTwoTest(windowsize); }
  }

  lemma PlainNoError(s: Settings)
    ensures !s.use_lz77 ==> SettingsError(s) == 0
  {
  }

  lemma HashStart(hash: Hash, data: seq<byte>, k: nat)
    requires hash.Shape(Pow2(k)) && hash.Links(0)
    ensures hash.Valid(data, k, 0)
  {
  }

  /** One block, of type 1 or 2. */
  method DeflateBlock(w: BitWriter, hash: Hash, data: seq<byte>, start: nat, end: nat, s: Settings, final: bool,
                      ghost k: nat)
    returns (defined: bool, error: nat, ghost b: Block)
    requires w.Valid() && start <= end <= |data| && (s.btype == 1 || s.btype == 2)
    requires s.use_lz77 && WindowOk(s.windowsize) ==> s.windowsize == Pow2(k) && hash.Valid(data, k, start)
    modifies w, hash.head, hash.val, hash.chain, hash.zeros
    ensures defined <==> s.btype == 1 || s.use_lz77 || start == 0 || start == end
    ensures w.Valid() && error == SettingsError(s)
    ensures defined && error == 0 ==>
              && Covers(data, start, end, b)
              && w.Contents() == old(w.Contents()) + BlockBits(|old(w.Contents())|, b, final)
    ensures error == 0 && s.use_lz77 ==> hash.Valid(data, k, end)
  {
    hide BitWriter.Valid, BitWriter.Contents, SettingsError, Covers, BlockBits, Pow2, Hash.Valid;
    if s.btype == 1 {
      defined := true;
      error, b := DeflateFixed(w, hash, data, start, end, s, final, k);
    } else {
      defined, error, b := DeflateDynamic(w, hash, data, start, end, s, final, k);
    }
  }

  /** The state between two blocks: either the stream so far, or an error. */
  ghost predicate Progress(hash: Hash, data: seq<byte>, s: Settings, k: nat, blocks: seq<Block>, i: nat, pos: nat,
                           bits: Bitstring, error: nat)
    reads hash, hash.head, hash.val, hash.chain, hash.zeros
  {
    && (if error == 0 then Streamed(data, blocks, i, pos, bits) else error == SettingsError(s))
    && (error == 0 && i > 0 ==> error == SettingsError(s))
    && (error == 0 && s.use_lz77 && WindowOk(s.windowsize) ==> s.windowsize == Pow2(k) && hash.Valid(data, k, pos))
  }

  /** The loop of lodepng_deflatev over the blocks. */
  method DeflateBlocks(data: seq<byte>, s: Settings, blocksize: nat, n: nat)
    returns (defined: bool, error: nat, out: seq<byte>, ghost blocks: seq<Block>)
    requires s.btype == 1 || s.btype == 2
    requires n > 0 && (n - 1) * blocksize <= |data| <= n * blocksize
    requires n > 1 ==> blocksize > 0 && (n - 1) * blocksize < |data|
    ensures defined <==> s.btype == 1 || s.use_lz77 || n == 1
    ensures defined ==> error == SettingsError(s)
    ensures defined && error == 0 ==> Decodable(out, blocks) && StreamData(blocks, |blocks|) == data
  {
    hide IsStream, StreamData, Streamed, BitWriter.Valid, BitWriter.Contents, SettingsError, Covers, BlockBits, Pow2,
         StartOf, Hash.Valid, Hash.Shape, Hash.Links;
    ghost var k := WindowPower(s.windowsize);
    var hash := new Hash(s.windowsize);
    if WindowOk(s.windowsize) { HashStart(hash, data, k); }
    var w := new BitWriter();
    blocks := seq(n, _ => Fixed([]));
    StreamedStart(data, n);
    PlainNoError(s);
    StartFirst(blocksize, n, |data|);
    error := 0;
    defined := true;
    var i: nat := 0;
    while i < n && error == 0
      invariant i <= n && w.Valid() && fresh(w) && fresh(hash.head) && fresh(hash.val) && fresh(hash.chain)
      invariant fresh(hash.zeros)
      invariant |blocks| == n && (s.btype == 1 || s.use_lz77 || i <= 1)
      invariant Progress(hash, data, s, k, blocks, i, StartOf(i, blocksize, n, |data|), w.Contents(), error)
      decreases n - i
    {
      StartStep(i, blocksize, n, |data|);
      OnlyFirstWithin(i, blocksize, n, |data|);
      var start: nat := i * blocksize;
      var end: nat := start + blocksize;
      if end > |data| { end := |data|; }
      ghost var b;
      ghost var before := w.Contents();
      defined, error, b := DeflateBlock(w, hash, data, start, end, s, i == n - 1, k);
      if !defined { return false, error, [], []; }
      if error == 0 {
        StreamedStep(data, blocks, i, start, before, end, b);
        blocks := blocks[i := b];
      }
      i := i + 1;
    }
    out := w.data;
    if error == 0 {
      StartLast(blocksize, n, |data|);
      WriterAt(w);
      StreamedEnd(data, blocks, w.Contents(), out);
    }
  }

  lemma StartFirst(blocksize: nat, n: nat, insize: nat)
    requires n > 0
    ensures StartOf(0, blocksize, n, insize) == 0
  {
  }

  lemma StartLast(blocksize: nat, n: nat, insize: nat)
    ensures StartOf(n, blocksize, n, insize) == insize
  {
  }

  lemma WriterAt(w: BitWriter)
    requires w.Valid()
    ensures At(BitsOf(w.data), 0, w.Contents())
  {
  }

  /**
   * Inflating what deflate produced gives back the input, for every block type, every number of blocks
   * and every setting that deflate accepts; only the empty input is lost with type 0.
   */
  method RoundTrip(data: seq<byte>, s: Settings) returns (defined: bool, error: nat, back: seq<byte>)
    ensures defined <==> Defined(data, s)
    ensures s.btype > 2 ==> error == 61
    ensures s.btype == 0 && data == [] ==> error == 52
    ensures s.btype == 0 && data != [] ==> error == 0 && back == data
    ensures defined && (s.btype == 1 || s.btype == 2) && SettingsError(s) == 0 ==> error == 0 && back == data
    ensures defined && (s.btype == 1 || s.btype == 2) && SettingsError(s) != 0 ==> error == SettingsError(s)
  {
    hide IsStream, StreamData, SettingsError;
    var compressed;
    ghost var blocks;
    back := [];
    defined, error, compressed, blocks := DeflateV(data, s);
    if !defined || error != 0 { return; }
    var out := new Inflate.ByteVector();
    error := Inflate.InflateV(out, compressed, blocks);
    back := out.data;
  }

  /** A stream of nothing but one empty stored block, which RFC 1951 allows, is not accepted. */
  method EmptyBlock() returns (data: seq<byte>, error: nat, ghost blocks: seq<Block>)
    ensures data == [1, 0, 0, 255, 255] && IsStream(data, blocks) && StreamData(blocks, |blocks|) == []
    ensures error == 52
  {
    data, blocks := [1, 0, 0, 255, 255], [Stored([])];
    EmptyBlockStream();
    var out := new Inflate.ByteVector();
    error := Inflate.InflateV(out, data, blocks);
  }

  lemma EmptyBlockStream()
    ensures var data, blocks := [1, 0, 0, 255, 255], [Stored([])];
            IsStream(data, blocks) && StreamData(blocks, 1) == [] && !Decodable(data, blocks)
  {
    hide BitsOf, BlockBits;
    var data: seq<byte>, b := [1, 0, 0, 255, 255], Stored([]);
    StoredBlockBits([], [], true);
    assert [] + [1] + [0 % 256] + [0 / 256] + [65535 % 256] + [65535 / 256] + [] == data;
    assert BitsOf([]) == [] && BitsOf(data) == BlockBits(0, b, true);
    assert StreamBits([b], 0) == [] && StreamBits([b], 1) == BlockBits(0, b, true);
  }
}
