/**
 * Canonical prefix codes given by their code lengths (section 3.2.2 of RFC 1951), as a theory about
 * sequences of lengths: length 0 means that the symbol is absent.
 *
 * A symbol of length l with code c owns the dyadic cells [c * 2^(L-l), (c+1) * 2^(L-l)) of 0..2^L.
 */
module Canonical {
  import opened Bits

  /** All lengths fit the given maximum. */
  predicate Bounded(lens: seq<nat>, L: nat) {
    forall i | 0 <= i < |lens| :: lens[i] <= L
  }

  predicate Present(lens: seq<nat>, n: nat) {
    n < |lens| && lens[n] > 0
  }

  function Count(lens: seq<nat>, l: nat): (c: nat) {
    if lens == [] then 0
    else Count(lens[..|lens| - 1], l) + (if lens[|lens| - 1] == l then 1 else 0)
  }

  /** The first code of length l: RFC 1951 ignores the absent symbols. */
  function First(lens: seq<nat>, l: nat): nat {
    if l <= 1 then 0 else 2 * (First(lens, l - 1) + Count(lens, l - 1))
  }

  function Rank(lens: seq<nat>, n: nat): nat
    requires n < |lens|
  {
    Count(lens[..n], lens[n])
  }

  function CodeValue(lens: seq<nat>, n: nat): nat
    requires n < |lens|
  {
    First(lens, lens[n]) + Rank(lens, n)
  }

  /** The code of a symbol as it appears in the stream. */
  function Code(lens: seq<nat>, n: nat): (s: Bitstring)
    requires n < |lens|
    ensures |s| == lens[n]
  {
    Msb(CodeValue(lens, n), lens[n])
  }

  /** Sum of 2^(L-len) over the present symbols: 2^L times the Kraft sum. */
  function Kraft(lens: seq<nat>, L: nat): nat
    requires Bounded(lens, L)
  {
    if lens == [] then 0
    else Kraft(lens[..|lens| - 1], L) + Weight(lens[|lens| - 1], L)
  }

  function Weight(len: nat, L: nat): nat
    requires len <= L
  {
    if len == 0 then 0 else Pow2(L - len)
  }

  /** The part of the Kraft sum that belongs to lengths 1..l. */
  function Below(lens: seq<nat>, L: nat, l: nat): nat
    requires l <= L
  {
    if l == 0 then 0 else Below(lens, L, l - 1) + Count(lens, l) * Pow2(L - l)
  }

  /** A complete code: the Kraft sum is exactly one. */
  predicate Complete(lens: seq<nat>, L: nat) {
    Bounded(lens, L) && Kraft(lens, L) == Pow2(L)
  }

  /** The code is not oversubscribed. */
  predicate Feasible(lens: seq<nat>, L: nat) {
    Bounded(lens, L) && Kraft(lens, L) <= Pow2(L)
  }

  // ---------------------------------------------------------------- the cells of a symbol

  function Start(lens: seq<nat>, L: nat, n: nat): nat
    requires Bounded(lens, L) && n < |lens|
  {
    CodeValue(lens, n) * Pow2(L - lens[n])
  }

  function End(lens: seq<nat>, L: nat, n: nat): nat
    requires Bounded(lens, L) && n < |lens|
  {
    (CodeValue(lens, n) + 1) * Pow2(L - lens[n])
  }

  lemma {:induction false} FirstScaled(lens: seq<nat>, L: nat, l: nat)
    requires 1 <= l <= L
    ensures First(lens, l) * Pow2(L - l) == Below(lens, L, l - 1)
  {
    if l > 1 {
      FirstScaled(lens, L, l - 1);
      var f, c := First(lens, l - 1), Count(lens, l - 1);
      Pow2Twice(f + c, L - l);
      MulSum(f, c, Pow2(L - l + 1));
    } else {
      assert First(lens, 1) == 0;
    }
  }

  lemma {:induction false} BelowMono(lens: seq<nat>, L: nat, k: nat, l: nat)
    requires k <= l <= L
    ensures Below(lens, L, k) <= Below(lens, L, l)
  {
    if k < l { BelowMono(lens, L, k, l - 1); }
  }

  lemma {:induction false} BelowSnoc(lens: seq<nat>, x: nat, L: nat, l: nat)
    requires l <= L
    ensures Below(lens + [x], L, l) == Below(lens, L, l) + (if 1 <= x <= l then Pow2(L - x) else 0)
  {
    if l > 0 {
      BelowSnoc(lens, x, L, l - 1);
      assert (lens + [x])[..|lens|] == lens;
      var c, p := Count(lens, l), Pow2(L - l);
      assert (c + 1) * p == c * p + p;
    }
  }

  lemma {:induction false} KraftIsBelow(lens: seq<nat>, L: nat)
    requires Bounded(lens, L)
    ensures Kraft(lens, L) == Below(lens, L, L)
  {
    if lens == [] {
      BelowEmpty(L, L);
    } else {
      var front, x := lens[..|lens| - 1], lens[|lens| - 1];
      assert lens == front + [x];
      KraftIsBelow(front, L);
      BelowSnoc(front, x, L, L);
    }
  }

  lemma {:induction false} BelowEmpty(L: nat, l: nat)
    requires l <= L
    ensures Below([], L, l) == 0
  {
    if l > 0 { BelowEmpty(L, l - 1); }
  }

  lemma {:induction false} CountPrefix(lens: seq<nat>, n: nat, l: nat)
    requires n < |lens|
    ensures Count(lens[..n], l) + (if lens[n] == l then 1 else 0) <= Count(lens, l)
    decreases |lens|
  {
    var front := lens[..|lens| - 1];
    if n < |front| {
      CountPrefix(front, n, l);
      assert front[..n] == lens[..n];
    }
  }

  lemma StartForm(lens: seq<nat>, L: nat, n: nat)
    requires Bounded(lens, L) && Present(lens, n)
    ensures Start(lens, L, n) == Below(lens, L, lens[n] - 1) + Rank(lens, n) * Pow2(L - lens[n])
    ensures End(lens, L, n) == Start(lens, L, n) + Pow2(L - lens[n])
  {
    var p := Pow2(L - lens[n]);
    FirstScaled(lens, L, lens[n]);
    MulSum(First(lens, lens[n]), Rank(lens, n), p);
    MulSum(CodeValue(lens, n), 1, p);
  }

  /** The cells of a symbol lie among those of its length. */
  lemma CellRange(lens: seq<nat>, L: nat, n: nat)
    requires Bounded(lens, L) && Present(lens, n)
    ensures Below(lens, L, lens[n] - 1) <= Start(lens, L, n)
    ensures End(lens, L, n) <= Below(lens, L, lens[n]) <= Kraft(lens, L)
    ensures End(lens, L, n) == Start(lens, L, n) + Pow2(L - lens[n])
  {
    var l, r := lens[n], Rank(lens, n);
    StartForm(lens, L, n);
    CountPrefix(lens, n, l);
    MulMono(0, r, Pow2(L - l));
    MulMono(r + 1, Count(lens, l), Pow2(L - l));
    MulSum(r, 1, Pow2(L - l));
    KraftIsBelow(lens, L);
    BelowMono(lens, L, l, L);
  }

  lemma CellsOrdered(lens: seq<nat>, L: nat, m: nat, n: nat)
    requires Bounded(lens, L) && Present(lens, m) && Present(lens, n)
    requires lens[m] < lens[n] || (lens[m] == lens[n] && m < n)
    ensures End(lens, L, m) <= Start(lens, L, n)
  {
    CellRange(lens, L, m);
    CellRange(lens, L, n);
    if lens[m] < lens[n] {
      BelowMono(lens, L, lens[m], lens[n] - 1);
    } else {
      assert lens[..n][..m] == lens[..m];
      CountPrefix(lens[..n], m, lens[m]);
      MulMono(CodeValue(lens, m) + 1, CodeValue(lens, n), Pow2(L - lens[n]));
    }
  }

  lemma CellsDisjoint(lens: seq<nat>, L: nat, m: nat, n: nat)
    requires Bounded(lens, L) && Present(lens, m) && Present(lens, n) && m != n
    ensures End(lens, L, m) <= Start(lens, L, n) || End(lens, L, n) <= Start(lens, L, m)
  {
    if lens[m] < lens[n] || (lens[m] == lens[n] && m < n) {
      CellsOrdered(lens, L, m, n);
    } else {
      CellsOrdered(lens, L, n, m);
    }
  }

  lemma CodeFits(lens: seq<nat>, L: nat, n: nat)
    requires Feasible(lens, L) && Present(lens, n)
    ensures CodeValue(lens, n) < Pow2(lens[n])
  {
    CellRange(lens, L, n);
    var c, l := CodeValue(lens, n), lens[n];
    if c >= Pow2(l) {
      Pow2Add(l, L - l);
      MulSum(Pow2(l), 1, Pow2(L - l));
      MulMono(Pow2(l) + 1, c + 1, Pow2(L - l));
    }
  }

  // ---------------------------------------------------------------- prefixes

  /** The value of the first d bits of the code of n. */
  function Prefix(lens: seq<nat>, n: nat, d: nat): nat
    requires n < |lens| && d <= lens[n]
  {
    Shr(CodeValue(lens, n), lens[n] - d)
  }

  lemma PrefixStep(lens: seq<nat>, n: nat, d: nat)
    requires n < |lens| && d < lens[n]
    ensures var bit := Shr(CodeValue(lens, n), lens[n] - d - 1) % 2;
            Prefix(lens, n, d + 1) == 2 * Prefix(lens, n, d) + bit
            && Code(lens, n)[d] == (bit == 1)
  {
    ShrStep(CodeValue(lens, n), lens[n] - d - 1);
    MsbAt(CodeValue(lens, n), lens[n], d);
  }

  lemma PrefixEnds(lens: seq<nat>, L: nat, n: nat)
    requires Feasible(lens, L) && Present(lens, n)
    ensures Prefix(lens, n, 0) == 0
    ensures Prefix(lens, n, lens[n]) == CodeValue(lens, n)
  {
    CodeFits(lens, L, n);
    ShrFits(CodeValue(lens, n), lens[n], lens[n]);
  }

  /** The cells of n lie below those of any of its prefixes. */
  lemma PrefixContains(lens: seq<nat>, L: nat, n: nat, d: nat)
    requires Bounded(lens, L) && n < |lens| && d <= lens[n]
    ensures Prefix(lens, n, d) * Pow2(L - d) <= Start(lens, L, n)
    ensures End(lens, L, n) <= (Prefix(lens, n, d) + 1) * Pow2(L - d)
  {
    var c, l := CodeValue(lens, n), lens[n];
    var k, p, q := Pow2(l - d), Pow2(L - l), Prefix(lens, n, d);
    Pow2Add(l - d, L - l);
    assert k * p == Pow2(L - d);
    ShrBounds(c, l - d);
    MulMono(q * k, c, p);
    MulAssoc(q, k, p);
    MulMono(c + 1, (q + 1) * k, p);
    MulAssoc(q + 1, k, p);
  }

  /** RFC 1951, 3.2.2: no code is a prefix of another code. */
  lemma PrefixFree(lens: seq<nat>, L: nat, m: nat, n: nat)
    requires Bounded(lens, L) && Present(lens, m) && Present(lens, n) && lens[m] <= lens[n]
    requires Prefix(lens, n, lens[m]) == CodeValue(lens, m)
    ensures m == n
  {
    if m != n {
      PrefixContains(lens, L, n, lens[m]);
      CellsDisjoint(lens, L, m, n);
      CellRange(lens, L, m);
      CellRange(lens, L, n);
    }
  }

  // ---------------------------------------------------------------- owners

  /** Among the codes of one length, every rank below the count is taken. */
  lemma {:induction false} RankTaken(lens: seq<nat>, l: nat, r: nat) returns (n: nat)
    requires r < Count(lens, l)
    ensures n < |lens| && lens[n] == l && Rank(lens, n) == r
  {
    var front := lens[..|lens| - 1];
    if r < Count(front, l) {
      n := RankTaken(front, l, r);
      assert front[..n] == lens[..n];
    } else {
      n := |lens| - 1;
    }
  }

  lemma {:induction false} Slot(y: nat, p: nat, c: nat) returns (r: nat)
    requires y < c * p
    ensures r < c && r * p <= y < (r + 1) * p
  {
    MulSum(c - 1, 1, p);
    if y < (c - 1) * p {
      r := Slot(y, p, c - 1);
    } else {
      r := c - 1;
    }
  }

  /** Every cell below the Kraft sum belongs to some symbol. */
  lemma {:induction false} Owner(lens: seq<nat>, L: nat, x: nat, l: nat) returns (n: nat)
    requires Bounded(lens, L) && l <= L && x < Below(lens, L, l)
    ensures Present(lens, n) && Start(lens, L, n) <= x < End(lens, L, n)
    decreases l
  {
    if x < Below(lens, L, l - 1) {
      n := Owner(lens, L, x, l - 1);
    } else {
      var p := Pow2(L - l);
      var r := Slot(x - Below(lens, L, l - 1), p, Count(lens, l));
      n := RankTaken(lens, l, r);
      StartForm(lens, L, n);
      MulSum(r, 1, p);
    }
  }

  // ---------------------------------------------------------------- counting internal nodes

  /** The d-bit value v is a proper prefix of some code. */
  ghost predicate Internal(lens: seq<nat>, d: nat, v: nat) {
    exists m: nat :: Present(lens, m) && d < lens[m] && Prefix(lens, m, d) == v
  }

  function Mid(L: nat, d: nat, v: nat): nat
    requires d < L
  {
    (2 * v + 1) * Pow2(L - d - 1)
  }

  /** In a complete code the middle of an internal node is where some symbol starts. */
  lemma MidIsStart(lens: seq<nat>, L: nat, d: nat, v: nat) returns (o: nat)
    requires Complete(lens, L) && Internal(lens, d, v)
    ensures d < L && Present(lens, o) && Start(lens, L, o) == Mid(L, d, v) > 0
  {
    var m: nat :| Present(lens, m) && d < lens[m] && Prefix(lens, m, d) == v;
    PrefixContains(lens, L, m, d);
    CellRange(lens, L, m);
    MidInside(lens, L, m, d);
    KraftIsBelow(lens, L);
    o := Owner(lens, L, Mid(L, d, v), L);
    if lens[o] <= d {
      MidNotCovered(lens, L, m, d, o);
    } else {
      MidOnGrid(lens, L, d, v, o);
    }
    MulMono(1, 2 * v + 1, Pow2(L - d - 1));
  }

  /** The middle of the node at depth d above m. */
  lemma MidInside(lens: seq<nat>, L: nat, m: nat, d: nat)
    requires Complete(lens, L) && Present(lens, m) && d < lens[m]
    ensures Mid(L, d, Prefix(lens, m, d)) < Kraft(lens, L)
    ensures Mid(L, d, Prefix(lens, m, d)) == Prefix(lens, m, d) * Pow2(L - d) + Pow2(L - d - 1)
  {
    var v, h := Prefix(lens, m, d), Pow2(L - d - 1);
    CodeFits(lens, L, m);
    ShrFits(CodeValue(lens, m), lens[m] - d, lens[m]);
    MulMono(v + 1, Pow2(d), Pow2(L - d));
    Pow2Add(d, L - d);
    MulSum(v, 1, Pow2(L - d));
    MulSum(2 * v, 1, h);
    MulAssoc(v, 2, h);
  }

  /** A symbol no deeper than the node cannot own the middle: it would cover m, too. */
  lemma MidNotCovered(lens: seq<nat>, L: nat, m: nat, d: nat, o: nat)
    requires Complete(lens, L) && Present(lens, m) && d < lens[m]
    requires Present(lens, o) && lens[o] <= d
    ensures !(Start(lens, L, o) <= Mid(L, d, Prefix(lens, m, d)) < End(lens, L, o))
  {
    var v, s := Prefix(lens, m, d), lens[o];
    MidInside(lens, L, m, d);
    PrefixContains(lens, L, m, d);
    CellRange(lens, L, m);
    Pow2Add(d - s, L - d);
    if Start(lens, L, o) <= Mid(L, d, v) < End(lens, L, o) {
      DyadicCover(CodeValue(lens, o), Pow2(d - s), Pow2(L - d), v, Pow2(L - d - 1));
      CellsDisjoint(lens, L, m, o);
    }
  }

  /** The middle is a multiple of the cell width of any deeper symbol. */
  lemma MidOnGrid(lens: seq<nat>, L: nat, d: nat, v: nat, o: nat)
    requires Bounded(lens, L) && Present(lens, o) && d < lens[o]
    requires Start(lens, L, o) <= Mid(L, d, v) < End(lens, L, o)
    ensures Start(lens, L, o) == Mid(L, d, v)
  {
    var k, w := Pow2(lens[o] - d - 1), Pow2(L - lens[o]);
    Pow2Add(lens[o] - d - 1, L - lens[o]);
    MulAssoc(2 * v + 1, k, w);
    MultipleInside(CodeValue(lens, o), (2 * v + 1) * k, w);
  }

  /** A cell [c*a*b, (c+1)*a*b) that meets the inside of [v*b, (v+1)*b) contains all of it. */
  lemma DyadicCover(c: nat, a: nat, b: nat, v: nat, h: nat)
    requires a > 0 && 0 < h < b
    requires c * (a * b) <= v * b + h < (c + 1) * (a * b)
    ensures c * (a * b) <= v * b && (v + 1) * b <= (c + 1) * (a * b)
  {
    assert c * (a * b) == (c * a) * b && (c + 1) * (a * b) == ((c + 1) * a) * b;
    assert (v + 1) * b == v * b + b;
    if c * a > v { MulMono(v + 1, c * a, b); } else { MulMono(c * a, v, b); }
    if (c + 1) * a <= v { MulMono((c + 1) * a, v, b); } else { MulMono(v + 1, (c + 1) * a, b); }
  }

  lemma MultipleInside(c: nat, k: nat, w: nat)
    requires w > 0 && c * w <= k * w < (c + 1) * w
    ensures c == k
  {
    MulSum(k, 1, w);
    if c > k { MulMono(k + 1, c, w); }
    if c < k { MulMono(c + 1, k, w); }
  }

  lemma MulSame(a: nat, b: nat, w: nat)
    requires w > 0 && a * w == b * w
    ensures a == b
  {
    MulSum(a, 1, w);
    MulSum(b, 1, w);
    if a < b { MulMono(a + 1, b, w); }
    if b < a { MulMono(b + 1, a, w); }
  }

  lemma MidInjective(L: nat, d: nat, v: nat, d': nat, v': nat)
    requires d <= d' < L && Mid(L, d, v) == Mid(L, d', v')
    ensures d == d' && v == v'
  {
    var w := Pow2(L - d' - 1);
    Pow2Add(d' - d, L - d' - 1);
    MulAssoc(2 * v + 1, Pow2(d' - d), w);
    MulSame((2 * v + 1) * Pow2(d' - d), 2 * v' + 1, w);
    if d < d' {
      OddNotEven(v, Pow2(d' - d - 1), v');
    }
  }

  lemma OddNotEven(v: nat, j: nat, v': nat)
    ensures (2 * v + 1) * (2 * j) != 2 * v' + 1
  {
    MulAssoc(2 * v + 1, j, 2);
  }

  /** Distinct members of a set are no more than it has. */
  lemma {:induction false} Pigeonhole<T>(s: seq<T>, S: set<T>)
    requires forall i | 0 <= i < |s| :: s[i] in S
    requires forall i, j | 0 <= i < j < |s| :: s[i] != s[j]
    ensures |s| <= |S|
  {
    if s != [] {
      var x := s[|s| - 1];
      Pigeonhole(s[..|s| - 1], S - {x});
    }
  }

  function Upto(n: nat): (s: set<nat>)
    ensures |s| == n
    ensures forall i: nat :: i in s <==> i < n
  {
    if n == 0 then {} else Upto(n - 1) + {n - 1}
  }

  /** Some of the internal nodes, each of them once. */
  ghost predicate InnerNodes(lens: seq<nat>, nodes: seq<(nat, nat)>) {
    && (forall i | 0 <= i < |nodes| :: Internal(lens, nodes[i].0, nodes[i].1))
    && (forall i, j | 0 <= i < j < |nodes| :: nodes[i] != nodes[j])
  }

  /** A code with fewer internal nodes than symbols, absent ones included. */
  ghost predicate Roomy(lens: seq<nat>, L: nat) {
    Feasible(lens, L) && forall nodes: seq<(nat, nat)> | InnerNodes(lens, nodes) :: |nodes| < |lens|
  }

  /**
   * A complete code over n symbols has at most n - 1 internal nodes: the reason why the table of
   * the decoder, which has room for just that many, never runs full.
   */
  lemma FewInternalNodes(lens: seq<nat>, L: nat)
    requires Complete(lens, L)
    ensures Roomy(lens, L)
  {
    forall nodes: seq<(nat, nat)> | InnerNodes(lens, nodes) ensures |nodes| < |lens| {
      OwnersOfNodes(lens, L, nodes);
    }
  }

  /** Each internal node has a symbol of its own that starts in its middle; the first symbol has none. */
  lemma OwnersOfNodes(lens: seq<nat>, L: nat, nodes: seq<(nat, nat)>)
    requires Complete(lens, L) && InnerNodes(lens, nodes)
    ensures |nodes| < |lens|
  {
    var owners: seq<nat> := [];
    for i := 0 to |nodes|
      invariant |owners| == i
      invariant forall j | 0 <= j < i ::
        nodes[j].0 < L && Present(lens, owners[j]) && Start(lens, L, owners[j]) == Mid(L, nodes[j].0, nodes[j].1) > 0
    {
      var o := MidIsStart(lens, L, nodes[i].0, nodes[i].1);
      owners := owners + [o];
    }
    KraftIsBelow(lens, L);
    var zero := Owner(lens, L, 0, L);
    var S := Upto(|lens|) - {zero};
    forall i, j | 0 <= i < j < |owners| ensures owners[i] != owners[j] {
      if owners[i] == owners[j] {
        if nodes[i].0 <= nodes[j].0 {
          MidInjective(L, nodes[i].0, nodes[i].1, nodes[j].0, nodes[j].1);
        } else {
          MidInjective(L, nodes[j].0, nodes[j].1, nodes[i].0, nodes[i].1);
        }
      }
    }
    Pigeonhole(owners, S);
  }

  /** So has a code of at most two symbols of one bit, such as the one of RFC 1951 for a single distance. */
  lemma FlatRoomy(lens: seq<nat>, L: nat)
    requires Feasible(lens, L) && |lens| >= 2 && Bounded(lens, 1)
    ensures Roomy(lens, L)
  {
    forall nodes: seq<(nat, nat)> | InnerNodes(lens, nodes) ensures |nodes| < |lens| {
      if |nodes| >= 2 {
        RootOnly(lens, L, nodes[0]);
        RootOnly(lens, L, nodes[1]);
        assert nodes[0] != nodes[1];
      }
    }
  }

  lemma RootOnly(lens: seq<nat>, L: nat, p: (nat, nat))
    requires Feasible(lens, L) && Bounded(lens, 1) && Internal(lens, p.0, p.1)
    ensures p == (0, 0)
  {
    var m: nat :| Present(lens, m) && p.0 < lens[m] && Prefix(lens, m, p.0) == p.1;
    PrefixEnds(lens, L, m);
  }

  /** The lengths of the example of RFC 1951, 3.2.2, for eight symbols A to H. */
  const EXAMPLE: seq<nat> := [3, 3, 3, 3, 3, 2, 4, 4]

  lemma ExampleValues()
    ensures |EXAMPLE| == 8 && forall n | 0 <= n < 8 :: EXAMPLE[n] == if n < 5 then 3 else if n == 5 then 2 else 4
    ensures forall n: nat | n < 8 :: CodeValue(EXAMPLE, n) == if n < 5 then 2 + n else if n == 5 then 0 else 8 + n
  {
    for n := 0 to 8
      invariant Count(EXAMPLE[..n], 1) == 0
      invariant Count(EXAMPLE[..n], 2) == if n <= 5 then 0 else 1
      invariant Count(EXAMPLE[..n], 3) == if n <= 5 then n else 5
      invariant Count(EXAMPLE[..n], 4) == if n <= 6 then 0 else n - 6
      invariant forall m: nat | m < n :: Rank(EXAMPLE, m) == if m < 5 then m else if m == 5 then 0 else m - 6
    {
      assert EXAMPLE[..n + 1][..n] == EXAMPLE[..n];
    }
    assert EXAMPLE[..8] == EXAMPLE;
    assert First(EXAMPLE, 2) == 0 && First(EXAMPLE, 3) == 2 && First(EXAMPLE, 4) == 14;
  }

  /** Their codes. */
  lemma ExampleCodes()
    ensures Code(EXAMPLE, 0) == [false, true, false] && Code(EXAMPLE, 1) == [false, true, true]
    ensures Code(EXAMPLE, 2) == [true, false, false] && Code(EXAMPLE, 3) == [true, false, true]
    ensures Code(EXAMPLE, 4) == [true, true, false] && Code(EXAMPLE, 5) == [false, false]
    ensures Code(EXAMPLE, 6) == [true, true, true, false] && Code(EXAMPLE, 7) == [true, true, true, true]
  {
    hide CodeValue;
    ExampleValues();
  }
}
