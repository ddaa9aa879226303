/**
 * Why the code lengths of package-merge are optimal: the first coins of every row are no heavier than
 * those that any other code of limited length would have to buy in it.
 */
module Optimal {
  import opened Bits
  import opened Canonical
  import opened CoinRows

  /** What the code costs for the first n symbols: the bits it takes to write each as often as it occurs. */
  function Cost(freqs: seq<nat>, lens: seq<nat>, n: nat): nat
    requires n <= |freqs| == |lens|
  {
    if n == 0 then 0 else Cost(freqs, lens, n - 1) + freqs[n - 1] * lens[n - 1]
  }

  /** A prefix-free code for all symbols that occur, with lengths up to L. */
  ghost predicate Rival(lens: seq<nat>, freqs: seq<nat>, L: nat) {
    && |lens| == |freqs| && Bounded(lens, L) && Kraft(lens, L) <= Pow2(L)
    && forall i | 0 <= i < |freqs| && freqs[i] > 0 :: lens[i] > 0
  }

  /** No such code is cheaper. */
  ghost predicate Cheapest(lens: seq<nat>, freqs: seq<nat>, L: nat) {
    && |lens| == |freqs|
    && forall rival | Rival(rival, freqs, L) :: Cost(freqs, lens, |freqs|) <= Cost(freqs, rival, |freqs|)
  }

  // ---------------------------------------------------------------- what selections weigh

  /** The weight of the first k coins of a row. */
  function Weighs(row: seq<Coin>, k: nat): nat
    requires k <= |row|
  {
    if k == 0 then 0 else Weighs(row, k - 1) + row[k - 1].weight
  }

  /** The weight of the selected ones among the first n coins, and their number. */
  function Price(z: Marked, n: nat): nat
    requires n <= |z|
  {
    if n == 0 then 0 else Price(z, n - 1) + (if z[n - 1].1 then z[n - 1].0.weight else 0)
  }

  function Picked(z: Marked, n: nat): (k: nat)
    requires n <= |z|
    ensures k <= n
  {
    if n == 0 then 0 else Picked(z, n - 1) + (if z[n - 1].1 then 1 else 0)
  }

  lemma {:induction false} WeighsMono(row: seq<Coin>, j: nat, k: nat)
    requires j <= k <= |row|
    ensures Weighs(row, j) <= Weighs(row, k)
  {
    if j < k { WeighsMono(row, j, k - 1); }
  }

  /** Of a sorted row, no selection of the same size is lighter than the first coins. */
  lemma {:induction false} FirstAreLightest(z: Marked, n: nat)
    requires n <= |z| && Sorted(Coins(z))
    ensures Weighs(Coins(z), Picked(z, n)) <= Price(z, n)
  {
    if n > 0 {
      FirstAreLightest(z, n - 1);
      var k := Picked(z, n - 1);
      assert Coins(z)[k].weight <= Coins(z)[n - 1].weight by { if k < n - 1 { assert Sorted(Coins(z)); } }
      assert Coins(z)[n - 1] == z[n - 1].0;
    }
  }

  lemma {:induction false} Appended(a: Marked, b: Marked, n: nat)
    requires n <= |b|
    ensures Price(a + b, |a| + n) == Price(a, |a|) + Price(b, n)
    ensures Picked(a + b, |a| + n) == Picked(a, |a|) + Picked(b, n)
    decreases n
  {
    if n > 0 {
      Appended(a, b, n - 1);
      assert (a + b)[|a| + n - 1] == b[n - 1];
    } else {
      SamePrefix(a + b, a, |a|);
    }
  }

  lemma {:induction false} SamePrefix(a: Marked, b: Marked, n: nat)
    requires n <= |a| && n <= |b| && forall i | 0 <= i < n :: a[i] == b[i]
    ensures Price(a, n) == Price(b, n) && Picked(a, n) == Picked(b, n)
  {
    if n > 0 { SamePrefix(a, b, n - 1); }
  }

  /** Taking one marked coin out. */
  lemma TakenOut(z: Marked, i: nat)
    requires i < |z|
    ensures var y := z[..i] + z[i + 1..];
            && Price(z, |z|) == Price(y, |y|) + (if z[i].1 then z[i].0.weight else 0)
            && Picked(z, |z|) == Picked(y, |y|) + (if z[i].1 then 1 else 0)
  {
    var a, b, c := z[..i], [z[i]], z[i + 1..];
    assert z == a + (b + c);
    Appended(a, b + c, |b + c|);
    Appended(b, c, |c|);
    Appended(a, c, |c|);
    assert Price(b, 0) == 0 && Picked(b, 0) == 0;
  }

  /** The order of the coins does not matter. */
  lemma {:induction false} AnyOrder(y: Marked, z: Marked)
    requires multiset(y) == multiset(z)
    ensures |y| == |z| && Price(y, |y|) == Price(z, |z|) && Picked(y, |y|) == Picked(z, |z|)
    decreases |y|
  {
    assert |multiset(y)| == |y| && |multiset(z)| == |z|;
    if y != [] {
      var n := |y| - 1;
      PushBack(y);
      assert y[n] in multiset(z);
      var i :| 0 <= i < |z| && z[i] == y[n];
      RemoveAt(z, i);
      TakenOut(z, i);
      TakenOut(y, n);
      assert y[..n] + y[n + 1..] == y[..n];
      AnyOrder(y[..n], z[..i] + z[i + 1..]);
    }
  }

  /** The first k packages weigh as much as the first 2k coins. */
  lemma {:induction false} PackagesWeigh(row: seq<Coin>, k: nat, n: nat)
    requires k <= |row| / 2 && n <= |row| / 2
    ensures var z := Take(Packages(row), k); var m := if n < k then n else k;
            Picked(z, n) == m && Price(z, n) == Weighs(row, 2 * m)
    decreases n
  {
    if n > 0 {
      PackagesWeigh(row, k, n - 1);
      assert Packages(row)[n - 1].weight == row[2 * (n - 1)].weight + row[2 * (n - 1) + 1].weight;
    }
  }

  // ---------------------------------------------------------------- what a rival has to buy

  /** The symbols among the first m whose codes have at least t bits: their number, and their frequencies. */
  function Long(freqs: seq<nat>, lens: seq<nat>, t: nat, m: nat): nat
    requires m <= |freqs| == |lens|
  {
    if m == 0 then 0
    else Long(freqs, lens, t, m - 1) + (if freqs[m - 1] > 0 && lens[m - 1] >= t then 1 else 0)
  }

  function LongFreqs(freqs: seq<nat>, lens: seq<nat>, t: nat, m: nat): nat
    requires m <= |freqs| == |lens|
  {
    if m == 0 then 0
    else LongFreqs(freqs, lens, t, m - 1) + (if lens[m - 1] >= t then freqs[m - 1] else 0)
  }

  /** The part of the cost that belongs to bits t and up of the codes. */
  function CostFrom(freqs: seq<nat>, lens: seq<nat>, t: nat, m: nat): nat
    requires m <= |freqs| == |lens|
  {
    if m == 0 then 0
    else CostFrom(freqs, lens, t, m - 1) + (if lens[m - 1] >= t then freqs[m - 1] * (lens[m - 1] + 1 - t) else 0)
  }

  lemma {:induction false} CostLevel(freqs: seq<nat>, lens: seq<nat>, t: nat, m: nat)
    requires m <= |freqs| == |lens|
    ensures CostFrom(freqs, lens, t, m) == CostFrom(freqs, lens, t + 1, m) + LongFreqs(freqs, lens, t, m)
  {
    if m > 0 {
      CostLevel(freqs, lens, t, m - 1);
      if lens[m - 1] >= t { OneMore(freqs[m - 1], lens[m - 1] - t); }
    }
  }

  lemma OneMore(f: nat, d: nat)
    ensures f * (d + 1) == f * d + f
  {
  }

  lemma {:induction false} CostAll(freqs: seq<nat>, lens: seq<nat>, m: nat)
    requires m <= |freqs| == |lens|
    ensures CostFrom(freqs, lens, 1, m) == Cost(freqs, lens, m)
  {
    if m > 0 { CostAll(freqs, lens, m - 1); }
  }

  /** How many coins of the row for bit t the rival has to buy: one for each long code, and those of the row below. */
  function Bought(freqs: seq<nat>, lens: seq<nat>, L: nat, t: nat): nat
    requires |freqs| == |lens| && t <= L + 1
    decreases L + 1 - t
  {
    if t == L + 1 then 0 else Long(freqs, lens, t, |freqs|) + Bought(freqs, lens, L, t + 1) / 2
  }

  /** Row j is cheap: its first coins are no heavier than what any rival has spent so far. */
  ghost predicate Cheap(row: seq<Coin>, freqs: seq<nat>, L: nat, j: nat)
    requires j <= L
  {
    forall rival | Rival(rival, freqs, L) ::
      && Bought(freqs, rival, L, L + 1 - j) <= |row|
      && Weighs(row, Bought(freqs, rival, L, L + 1 - j)) <= CostFrom(freqs, rival, L + 1 - j, |freqs|)
  }

  lemma CheapStart(freqs: seq<nat>, L: nat)
    ensures Cheap([], freqs, L, 0)
  {
  }

  /** The symbol coins that a rival buys for bit t. */
  function MarkLong(freqs: seq<nat>, lens: seq<nat>, t: nat, m: nat): (z: Marked)
    requires m <= |freqs| == |lens|
  {
    if m == 0 then []
    else MarkLong(freqs, lens, t, m - 1)
         + (if freqs[m - 1] > 0 then [(Coin([m - 1], freqs[m - 1]), lens[m - 1] >= t)] else [])
  }

  lemma {:induction false} LongWeigh(freqs: seq<nat>, lens: seq<nat>, t: nat, m: nat)
    requires m <= |freqs| == |lens|
    ensures var z := MarkLong(freqs, lens, t, m);
            && Picked(z, |z|) == Long(freqs, lens, t, m) && Price(z, |z|) == LongFreqs(freqs, lens, t, m)
            && Coins(z) == SymbolCoins(freqs[..m])
  {
    if m > 0 {
      LongWeigh(freqs, lens, t, m - 1);
      assert freqs[..m][..m - 1] == freqs[..m - 1];
      if freqs[m - 1] > 0 {
        var z, c := MarkLong(freqs, lens, t, m - 1), (Coin([m - 1], freqs[m - 1]), lens[m - 1] >= t);
        LongPush(z, c);
        assert [c] == [(c.0, c.1)];
      } else {
        assert MarkLong(freqs, lens, t, m) == MarkLong(freqs, lens, t, m - 1);
      }
    }
  }

  lemma LongPush(z: Marked, c: (Coin, bool))
    ensures Picked(z + [c], |z + [c]|) == Picked(z, |z|) + (if c.1 then 1 else 0)
    ensures Price(z + [c], |z + [c]|) == Price(z, |z|) + (if c.1 then c.0.weight else 0)
    ensures Coins(z + [c]) == Coins(z) + [c.0]
  {
    Appended(z, [c], 1);
    CoinsPush(z, c);
  }

  /** One round keeps the rows cheap, with the symbol coins or, in the end, without them. */
  lemma CheapRound(row: seq<Coin>, next: seq<Coin>, freqs: seq<nat>, L: nat, j: nat)
    requires j < L && Cheap(row, freqs, L, j) && Sorted(next)
    requires multiset(next) == multiset(Packages(row) + SymbolCoins(freqs))
    ensures Cheap(next, freqs, L, j + 1)
  {
    forall rival | Rival(rival, freqs, L)
      ensures Bought(freqs, rival, L, L - j) <= |next|
      ensures Weighs(next, Bought(freqs, rival, L, L - j)) <= CostFrom(freqs, rival, L - j, |freqs|)
    {
      CheapNext(row, next, freqs, rival, L, L - j);
    }
  }

  lemma CheapNext(row: seq<Coin>, next: seq<Coin>, freqs: seq<nat>, rival: seq<nat>, L: nat, t: nat)
    requires |freqs| == |rival| && t <= L && Sorted(next)
    requires Bought(freqs, rival, L, t + 1) <= |row|
    requires Weighs(row, Bought(freqs, rival, L, t + 1)) <= CostFrom(freqs, rival, t + 1, |freqs|)
    requires multiset(next) == multiset(Packages(row) + SymbolCoins(freqs))
    ensures Bought(freqs, rival, L, t) <= |next|
    ensures Weighs(next, Bought(freqs, rival, L, t)) <= CostFrom(freqs, rival, t, |freqs|)
  {
    hide Sorted, Packages, SymbolCoins, Coins, Take, MarkLong, Weighs, CostFrom, LongFreqs, Long;
    var k := Bought(freqs, rival, L, t + 1);
    var zp, zs := Take(Packages(row), k / 2), MarkLong(freqs, rival, t, |freqs|);
    PackagesWeigh(row, k / 2, |zp|);
    WeighsMono(row, 2 * (k / 2), k);
    LongWeigh(freqs, rival, t, |freqs|);
    assert freqs[..|freqs|] == freqs;
    CostLevel(freqs, rival, t, |freqs|);
    Appended(zp, zs, |zs|);
    CoinsJoin(zp, zs);
    var y := Rearrange(zp + zs, next);
    AnyOrder(y, zp + zs);
    FirstAreLightest(y, |y|);
  }

  lemma CoinsJoin(a: Marked, b: Marked)
    ensures Coins(a + b) == Coins(a) + Coins(b)
  {
  }

  /** The last row consists of packages only. */
  lemma CheapLast(row: seq<Coin>, last: seq<Coin>, freqs: seq<nat>, rival: seq<nat>, L: nat)
    requires L > 0 && |freqs| == |rival| && Cheap(row, freqs, L, L) && Rival(rival, freqs, L) && Sorted(last)
    requires multiset(last) == multiset(Packages(row))
    ensures Bought(freqs, rival, L, 1) / 2 <= |last|
    ensures Weighs(last, Bought(freqs, rival, L, 1) / 2) <= Cost(freqs, rival, |freqs|)
  {
    hide Sorted, Packages, Coins, Take, Weighs, Bought, Cost, CostFrom, Rival;
    var k := Bought(freqs, rival, L, 1);
    var z := Take(Packages(row), k / 2);
    PackagesWeigh(row, k / 2, |z|);
    WeighsMono(row, 2 * (k / 2), k);
    CostAll(freqs, rival, |freqs|);
    var y := Rearrange(z, last);
    AnyOrder(y, z);
    FirstAreLightest(y, |y|);
  }

  // ---------------------------------------------------------------- how many it has to buy

  /** The cells of 0..2^L that codes of at least t bits leave free, in units of one bit. */
  function Freed(freqs: seq<nat>, lens: seq<nat>, L: nat, t: nat, m: nat): int
    requires m <= |freqs| == |lens| && Bounded(lens, L) && t <= L + 1
  {
    if m == 0 then 0
    else Freed(freqs, lens, L, t, m - 1)
         + (if freqs[m - 1] > 0 && lens[m - 1] >= t then Pow2(L + 1 - t) - Pow2(L - lens[m - 1]) else 0)
  }

  lemma {:induction false} FreedLevel(freqs: seq<nat>, lens: seq<nat>, L: nat, t: nat, m: nat)
    requires m <= |freqs| == |lens| && Bounded(lens, L) && t <= L
    ensures Freed(freqs, lens, L, t, m) == Freed(freqs, lens, L, t + 1, m) + Copies(Long(freqs, lens, t, m), L - t)
  {
    if m > 0 {
      FreedLevel(freqs, lens, L, t, m - 1);
      assert Pow2(L + 1 - t) == 2 * Pow2(L - t);
    }
  }

  lemma {:induction false} FreedAbove(freqs: seq<nat>, lens: seq<nat>, L: nat, m: nat)
    requires m <= |freqs| == |lens| && Bounded(lens, L)
    ensures Freed(freqs, lens, L, L + 1, m) == 0
  {
    if m > 0 { FreedAbove(freqs, lens, L, m - 1); }
  }

  /** Together the codes free all cells of the symbols but those that the Kraft sum takes. */
  lemma {:induction false} FreedAll(freqs: seq<nat>, lens: seq<nat>, L: nat, m: nat)
    requires m <= |freqs| == |lens| && Bounded(lens, L) && forall i | 0 <= i < |freqs| && freqs[i] > 0 :: lens[i] > 0
    ensures Freed(freqs, lens, L, 1, m) + Kraft(lens[..m], L) >= Copies(|Symbols(freqs[..m])|, L)
  {
    if m == 0 {
      assert lens[..0] == [] && freqs[..0] == [];
    } else {
      FreedAll(freqs, lens, L, m - 1);
      KraftStep(lens, L, m);
      SymbolsStep(freqs, m);
      CopiesStep(|Symbols(freqs[..m - 1])|, L);
    }
  }

  lemma {:induction false} CopiesAdd(a: nat, b: nat, l: nat)
    ensures Copies(a + b, l) == Copies(a, l) + Copies(b, l)
  {
    if b > 0 { CopiesAdd(a, b - 1, l); }
  }

  lemma {:induction false} CopiesTwice(k: nat, l: nat)
    ensures Copies(2 * k, l) == Copies(k, l + 1)
  {
    if k > 0 {
      CopiesTwice(k - 1, l);
      assert Copies(2 * k, l) == Copies(2 * k - 1, l) + Pow2(l);
    }
  }

  lemma CopiesMono(a: nat, b: nat, l: nat)
    requires a <= b
    ensures Copies(a, l) <= Copies(b, l)
  {
    CopiesAdd(a, b - a, l);
  }

  /** Dropping odd coins loses less than one package. */
  lemma {:induction false} BoughtEnough(freqs: seq<nat>, lens: seq<nat>, L: nat, t: nat)
    requires |freqs| == |lens| && Bounded(lens, L) && t <= L + 1
    ensures Copies(Bought(freqs, lens, L, t) / 2 + 1, L + 1 - t) > Freed(freqs, lens, L, t, |freqs|)
    decreases L + 1 - t
  {
    if t == L + 1 {
      FreedAbove(freqs, lens, L, |freqs|);
    } else {
      BoughtEnough(freqs, lens, L, t + 1);
      FreedLevel(freqs, lens, L, t, |freqs|);
      var a, h := Long(freqs, lens, t, |freqs|), Bought(freqs, lens, L, t + 1) / 2;
      var k := Bought(freqs, lens, L, t);
      CopiesAdd(h + 1, a, L - t);
      CopiesTwice(k / 2 + 1, L - t);
      CopiesMono(k + 1, 2 * (k / 2 + 1), L - t);
    }
  }

  /** A rival with n symbols buys at least n - 1 coins of the last row. */
  lemma BoughtAll(freqs: seq<nat>, rival: seq<nat>, L: nat)
    requires L > 0 && Rival(rival, freqs, L) && Symbols(freqs) != []
    ensures Bought(freqs, rival, L, 1) / 2 >= |Symbols(freqs)| - 1
  {
    var n, h := |Symbols(freqs)|, Bought(freqs, rival, L, 1) / 2;
    BoughtEnough(freqs, rival, L, 1);
    FreedAll(freqs, rival, L, |freqs|);
    assert rival[..|freqs|] == rival && freqs[..|freqs|] == freqs;
    CopiesAdd(n - 1, 1, L);
    assert Copies(1, L) == Copies(0, L) + Pow2(L) == Pow2(L);
    if h + 1 <= n - 1 { CopiesMono(h + 1, n - 1, L); }
  }

  /** The weight of the coins that package-merge chooses in the end. */
  lemma ChosenCheapest(row: seq<Coin>, last: seq<Coin>, freqs: seq<nat>, lens: seq<nat>, L: nat)
    requires L > 0 && Cheap(row, freqs, L, L) && Sorted(last) && multiset(last) == multiset(Packages(row))
    requires 1 <= |Symbols(freqs)| <= |last| + 1 && |lens| == |freqs|
    requires Cost(freqs, lens, |freqs|) == Weighs(last, |Symbols(freqs)| - 1)
    ensures Cheapest(lens, freqs, L)
  {
    forall rival | Rival(rival, freqs, L) ensures Cost(freqs, lens, |freqs|) <= Cost(freqs, rival, |freqs|) {
      CheaperThan(row, last, freqs, lens, rival, L);
    }
  }

  lemma CheaperThan(row: seq<Coin>, last: seq<Coin>, freqs: seq<nat>, lens: seq<nat>, rival: seq<nat>, L: nat)
    requires L > 0 && Cheap(row, freqs, L, L) && Sorted(last) && multiset(last) == multiset(Packages(row))
    requires 1 <= |Symbols(freqs)| <= |last| + 1 && |lens| == |freqs| == |rival| && Rival(rival, freqs, L)
    requires Cost(freqs, lens, |freqs|) == Weighs(last, |Symbols(freqs)| - 1)
    ensures Cost(freqs, lens, |freqs|) <= Cost(freqs, rival, |freqs|)
  {
    hide Rival, Cost, Weighs, Cheap, Sorted, Packages, Symbols;
    CheapLast(row, last, freqs, rival, L);
    BoughtAll(freqs, rival, L);
    WeighsMono(last, |Symbols(freqs)| - 1, Bought(freqs, rival, L, 1) / 2);
  }

  // ---------------------------------------------------------------- what the chosen lengths cost

  /** The weight of a coin is that of its symbols. */
  function WeightOf(symbols: seq<nat>, freqs: seq<nat>, n: nat): nat
    requires n <= |symbols| && forall s | s in symbols :: s < |freqs|
  {
    if n == 0 then 0
    else
      assert symbols[n - 1] in symbols;
      WeightOf(symbols, freqs, n - 1) + freqs[symbols[n - 1]]
  }

  ghost predicate Weighed(c: Coin, freqs: seq<nat>) {
    && (forall s | s in c.symbols :: s < |freqs|)
    && c.weight == WeightOf(c.symbols, freqs, |c.symbols|)
  }

  ghost predicate RowWeighed(row: seq<Coin>, freqs: seq<nat>) {
    forall i | 0 <= i < |row| :: Weighed(row[i], freqs)
  }

  lemma {:induction false} WeightJoin(a: seq<nat>, b: seq<nat>, freqs: seq<nat>, n: nat)
    requires (forall s | s in a :: s < |freqs|) && (forall s | s in b :: s < |freqs|) && n <= |b|
    ensures forall s | s in a + b :: s < |freqs|
    ensures WeightOf(a + b, freqs, |a| + n) == WeightOf(a, freqs, |a|) + WeightOf(b, freqs, n)
  {
    if n > 0 {
      WeightJoin(a, b, freqs, n - 1);
    } else {
      WeightSame(a + b, a, freqs, |a|);
    }
  }

  lemma {:induction false} WeightSame(a: seq<nat>, b: seq<nat>, freqs: seq<nat>, n: nat)
    requires (forall s | s in a :: s < |freqs|) && (forall s | s in b :: s < |freqs|)
    requires n <= |a| && n <= |b| && a[..n] == b[..n]
    ensures WeightOf(a, freqs, n) == WeightOf(b, freqs, n)
  {
    if n > 0 {
      assert a[n - 1] == a[..n][n - 1] == b[..n][n - 1] == b[n - 1];
      assert a[..n - 1] == a[..n][..n - 1] == b[..n][..n - 1] == b[..n - 1];
      WeightSame(a, b, freqs, n - 1);
    }
  }

  lemma WeighedRound(row: seq<Coin>, next: seq<Coin>, freqs: seq<nat>, symbols: bool)
    requires RowWeighed(row, freqs)
    requires multiset(next) == multiset(Packages(row) + (if symbols then SymbolCoins(freqs) else []))
    ensures RowWeighed(next, freqs)
  {
    hide Weighed, Packages, Symbols, SymbolCoins, Merge;
    var p, q := Packages(row), if symbols then SymbolCoins(freqs) else [];
    forall i | 0 <= i < |p| ensures Weighed(p[i], freqs) { WeighedPackage(row, freqs, i); }
    forall i | 0 <= i < |q| ensures Weighed(q[i], freqs) { WeighedSymbolCoin(freqs, i); }
    forall i | 0 <= i < |next| ensures Weighed(next[i], freqs) {
      assert next[i] in multiset(p + q);
    }
  }

  lemma WeighedPackage(row: seq<Coin>, freqs: seq<nat>, i: nat)
    requires RowWeighed(row, freqs) && i < |row| / 2
    ensures Weighed(Packages(row)[i], freqs)
  {
    hide Weighed;
    WeighedMerge(row[2 * i], row[2 * i + 1], freqs);
  }

  lemma WeighedSymbolCoin(freqs: seq<nat>, i: nat)
    requires i < |SymbolCoins(freqs)|
    ensures Weighed(SymbolCoins(freqs)[i], freqs)
  {
    hide Weighed;
    SymbolCount(freqs);
    SymbolAt(freqs, i);
    WeighedSymbol(freqs, Symbols(freqs)[i]);
  }

  lemma WeighedMerge(a: Coin, b: Coin, freqs: seq<nat>)
    requires Weighed(a, freqs) && Weighed(b, freqs)
    ensures Weighed(Merge(a, b), freqs)
  {
    WeightJoin(a.symbols, b.symbols, freqs, |b.symbols|);
  }

  lemma WeighedSymbol(freqs: seq<nat>, s: nat)
    requires s < |freqs|
    ensures Weighed(Coin([s], freqs[s]), freqs)
  {
    assert WeightOf([s], freqs, 1) == WeightOf([s], freqs, 0) + freqs[s];
  }

  /** One bit more for a symbol. */
  lemma {:induction false} CostBump(freqs: seq<nat>, lens: seq<nat>, s: nat, n: nat)
    requires n <= |freqs| == |lens| && s < |lens|
    ensures Cost(freqs, lens[s := lens[s] + 1], n) == Cost(freqs, lens, n) + (if s < n then freqs[s] else 0)
  {
    if n > 0 {
      CostBump(freqs, lens, s, n - 1);
      if s == n - 1 { OneMore(freqs[s], lens[s]); }
    }
  }

  lemma {:induction false} CostNothing(freqs: seq<nat>, lens: seq<nat>, n: nat)
    requires n <= |freqs| == |lens| && forall i | 0 <= i < n :: lens[i] == 0 || freqs[i] == 0
    ensures Cost(freqs, lens, n) == 0
  {
    if n > 0 { CostNothing(freqs, lens, n - 1); }
  }

  /** One symbol with one bit: no code is cheaper. */
  lemma OneSymbolCheapest(freqs: seq<nat>, lens: seq<nat>, s: nat, L: nat)
    requires s < |freqs| == |lens| && lens[s] == 1 && forall i | 0 <= i < |freqs| && i != s :: freqs[i] == 0
    ensures Cheapest(lens, freqs, L)
  {
    forall rival | Rival(rival, freqs, L) ensures Cost(freqs, lens, |freqs|) <= Cost(freqs, rival, |freqs|) {
      CostOfOne(freqs, lens, s, |freqs|);
      CostOfOne(freqs, rival, s, |freqs|);
      if freqs[s] > 0 { AtLeast(freqs[s], rival[s]); }
    }
  }

  lemma AtLeast(f: nat, l: nat)
    requires l > 0
    ensures f * 1 <= f * l
  {
  }

  lemma {:induction false} CostOfOne(freqs: seq<nat>, lens: seq<nat>, s: nat, n: nat)
    requires s < |freqs| == |lens| && n <= |freqs| && forall i | 0 <= i < |freqs| && i != s :: freqs[i] == 0
    ensures Cost(freqs, lens, n) == if s < n then freqs[s] * lens[s] else 0
  {
    if n > 0 { CostOfOne(freqs, lens, s, n - 1); }
  }
}
