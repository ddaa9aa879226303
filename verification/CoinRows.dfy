/**
 * The rows of coins that the package-merge algorithm works on.
 *
 * Weights are exact here (the original divides each frequency by their sum in floating point, which
 * scales all weights alike). No stability is asked of the sort: every result below holds for
 * whatever order it gives to coins of equal weight.
 */
module CoinRows {
  import opened Bits
  import opened Canonical

  datatype Coin = Coin(symbols: seq<nat>, weight: nat)

  function Merge(a: Coin, b: Coin): Coin {
    Coin(a.symbols + b.symbols, a.weight + b.weight)
  }

  /** Neighbouring coins are merged; an odd last one is dropped. */
  function Packages(row: seq<Coin>): (p: seq<Coin>)
    ensures |p| == |row| / 2
  {
    seq(|row| / 2, k requires 0 <= k < |row| / 2 => Merge(row[2 * k], row[2 * k + 1]))
  }

  /** The symbols that occur, in increasing order. */
  function Symbols(freqs: seq<nat>): (s: seq<nat>) {
    if freqs == [] then []
    else
      var n := |freqs| - 1;
      Symbols(freqs[..n]) + (if freqs[n] > 0 then [n] else [])
  }

  /** One coin for each of them. */
  function SymbolCoins(freqs: seq<nat>): (row: seq<Coin>) {
    if freqs == [] then []
    else
      var n := |freqs| - 1;
      SymbolCoins(freqs[..n]) + (if freqs[n] > 0 then [Coin([n], freqs[n])] else [])
  }

  lemma {:induction false} SymbolAt(freqs: seq<nat>, k: nat)
    requires k < |Symbols(freqs)|
    ensures |SymbolCoins(freqs)| == |Symbols(freqs)|
    ensures var s := Symbols(freqs)[k];
            s < |freqs| && freqs[s] > 0 && SymbolCoins(freqs)[k] == Coin([s], freqs[s])
  {
    var n := |freqs| - 1;
    SymbolCount(freqs[..n]);
    if k < |Symbols(freqs[..n])| {
      SymbolAt(freqs[..n], k);
    }
  }

  lemma {:induction false} SymbolCount(freqs: seq<nat>)
    ensures |SymbolCoins(freqs)| == |Symbols(freqs)| <= |freqs|
  {
    if freqs != [] { SymbolCount(freqs[..|freqs| - 1]); }
  }

  lemma {:induction false} SymbolsDistinct(freqs: seq<nat>)
    ensures forall i, j | 0 <= i < j < |Symbols(freqs)| :: Symbols(freqs)[i] != Symbols(freqs)[j]
  {
    if freqs != [] {
      var n := |freqs| - 1;
      SymbolsDistinct(freqs[..n]);
      forall i | 0 <= i < |Symbols(freqs[..n])| ensures Symbols(freqs[..n])[i] < n { SymbolAt(freqs[..n], i); }
    }
  }

  ghost predicate Sorted(row: seq<Coin>) {
    forall i, j | 0 <= i < j < |row| :: row[i].weight <= row[j].weight
  }

  /** A coin weighs at least as much as each of its symbols, and something. */
  predicate CoinOk(c: Coin, freqs: seq<nat>) {
    c.weight > 0 && forall s | s in c.symbols :: s < |freqs| && 0 < freqs[s] <= c.weight
  }

  predicate RowOk(row: seq<Coin>, freqs: seq<nat>) {
    forall i | 0 <= i < |row| :: CoinOk(row[i], freqs)
  }

  // ---------------------------------------------------------------- selections

  /** A row of coins, some of which are selected. */
  type Marked = seq<(Coin, bool)>

  function Coins(z: Marked): (row: seq<Coin>)
    ensures |row| == |z|
  {
    seq(|z|, i requires 0 <= i < |z| => z[i].0)
  }

  /** Whatever weighs strictly less than a selected coin is selected, too. */
  ghost predicate DownClosed(z: Marked) {
    forall i, j | 0 <= i < |z| && 0 <= j < |z| && z[i].0.weight < z[j].0.weight && z[j].1 :: z[i].1
  }

  /** The value of the selected coins when each is worth 2^l. */
  function Worth(z: Marked, l: nat): nat {
    if z == [] then 0 else Worth(z[..|z| - 1], l) + (if z[|z| - 1].1 then Pow2(l) else 0)
  }

  /** How often symbol s occurs in the selected coins: the length its code would get. */
  function Use(z: Marked, s: nat): nat {
    if z == [] then 0
    else Use(z[..|z| - 1], s) + (if z[|z| - 1].1 then Count(z[|z| - 1].0.symbols, s) else 0)
  }

  /** What a code of length u takes away from the 2^l cells of a symbol. */
  function Gain(l: nat, u: nat): int {
    if u <= l then Pow2(l) - Pow2(l - u) else 0
  }

  function Total(z: Marked, l: nat, syms: seq<nat>): int {
    if syms == [] then 0 else Total(z, l, syms[..|syms| - 1]) + Gain(l, Use(z, syms[|syms| - 1]))
  }

  ghost predicate UsesWithin(z: Marked, l: nat, syms: seq<nat>) {
    forall k | 0 <= k < |syms| :: Use(z, syms[k]) <= l
  }

  /** The value identity of a selection from row l, where a coin is worth 2^(l-1). */
  ghost predicate Balanced(z: Marked, l: nat, syms: seq<nat>) {
    && UsesWithin(z, l, syms)
    && 2 * Total(z, l, syms) == Worth(z, l)
  }

  /** Every selection from the row that is closed downwards is balanced. */
  ghost predicate Good(row: seq<Coin>, l: nat, syms: seq<nat>) {
    forall z: Marked | Coins(z) == row && DownClosed(z) :: Balanced(z, l, syms)
  }

  // ---------------------------------------------------------------- order does not matter

  lemma {:induction false} WorthConcat(a: Marked, b: Marked, l: nat)
    ensures Worth(a + b, l) == Worth(a, l) + Worth(b, l)
  {
    if b == [] {
      assert a + b == a;
    } else {
      assert (a + b)[..|a + b| - 1] == a + b[..|b| - 1];
      WorthConcat(a, b[..|b| - 1], l);
    }
  }

  lemma {:induction false} WorthTwice(z: Marked, l: nat)
    ensures Worth(z, l + 1) == 2 * Worth(z, l)
  {
    if z != [] { WorthTwice(z[..|z| - 1], l); }
  }

  lemma {:induction false} UseConcat(a: Marked, b: Marked, s: nat)
    ensures Use(a + b, s) == Use(a, s) + Use(b, s)
  {
    if b == [] {
      assert a + b == a;
    } else {
      assert (a + b)[..|a + b| - 1] == a + b[..|b| - 1];
      UseConcat(a, b[..|b| - 1], s);
    }
  }

  lemma RemoveAt<T>(s: seq<T>, i: nat)
    requires i < |s|
    ensures multiset(s[..i] + s[i + 1..]) == multiset(s) - multiset{s[i]}
  {
    assert s == s[..i] + [s[i]] + s[i + 1..];
  }

  lemma PushBack<T>(s: seq<T>)
    requires s != []
    ensures multiset(s[..|s| - 1]) == multiset(s) - multiset{s[|s| - 1]}
    ensures multiset(s) == multiset(s[..|s| - 1]) + multiset{s[|s| - 1]}
  {
    assert s == s[..|s| - 1] + [s[|s| - 1]];
  }

  /** Moving one marked coin to the end. */
  lemma MoveLast(z: Marked, i: nat, s: nat, l: nat)
    requires i < |z|
    ensures var y := z[..i] + z[i + 1..];
            Worth(z, l) == Worth(y, l) + (if z[i].1 then Pow2(l) else 0)
            && Use(z, s) == Use(y, s) + (if z[i].1 then Count(z[i].0.symbols, s) else 0)
  {
    var a, b, c := z[..i], [z[i]], z[i + 1..];
    assert z == a + b + c;
    WorthConcat(a + b, c, l);
    WorthConcat(a, b, l);
    WorthConcat(a, c, l);
    UseConcat(a + b, c, s);
    UseConcat(a, b, s);
    UseConcat(a, c, s);
    assert b[..0] == [];
  }

  /** The totals of a selection depend on its marked coins only, not on their order. */
  lemma {:induction false} OrderFree(y: Marked, z: Marked, s: nat, l: nat)
    requires multiset(y) == multiset(z)
    ensures |y| == |z| && Worth(y, l) == Worth(z, l) && Use(y, s) == Use(z, s)
    decreases |y|
  {
    assert |multiset(y)| == |y| && |multiset(z)| == |z|;
    if y != [] {
      var n := |y| - 1;
      PushBack(y);
      assert y[n] in multiset(z);
      var i :| 0 <= i < |z| && z[i] == y[n];
      RemoveAt(z, i);
      MoveLast(z, i, s, l);
      OrderFree(y[..n], z[..i] + z[i + 1..], s, l);
    }
  }

  lemma TakeLast(z: Marked, row: seq<Coin>) returns (i: nat)
    requires multiset(Coins(z)) == multiset(row) && row != []
    ensures i < |z| && z[i].0 == row[|row| - 1]
    ensures multiset(Coins(z[..i] + z[i + 1..])) == multiset(row[..|row| - 1])
  {
    var cs := Coins(z);
    i := IndexIn(cs, row);
    CoinsCut(z, i);
    RemoveAt(cs, i);
    PushBack(row);
  }

  lemma IndexIn(cs: seq<Coin>, row: seq<Coin>) returns (i: nat)
    requires multiset(cs) == multiset(row) && row != []
    ensures i < |cs| && cs[i] == row[|row| - 1]
  {
    assert row[|row| - 1] in multiset(cs);
    i :| 0 <= i < |cs| && cs[i] == row[|row| - 1];
  }

  lemma CoinsCut(z: Marked, i: nat)
    requires i < |z|
    ensures Coins(z[..i] + z[i + 1..]) == Coins(z)[..i] + Coins(z)[i + 1..]
  {
  }

  /** A selection can follow a permutation of its row. */
  lemma {:induction false} Rearrange(z: Marked, row: seq<Coin>) returns (y: Marked)
    requires multiset(Coins(z)) == multiset(row)
    ensures Coins(y) == row && multiset(y) == multiset(z)
    decreases |row|
  {
    assert |multiset(Coins(z))| == |z| && |multiset(row)| == |row|;
    if row == [] {
      y := [];
    } else {
      var i := TakeLast(z, row);
      var y' := Rearrange(z[..i] + z[i + 1..], row[..|row| - 1]);
      y := y' + [z[i]];
      RemoveAt(z, i);
      CoinsPush(y', z[i]);
      hide Coins;
      assert row == row[..|row| - 1] + [row[|row| - 1]];
    }
  }

  lemma CoinsPush(y: Marked, m: (Coin, bool))
    ensures Coins(y + [m]) == Coins(y) + [m.0]
    ensures multiset(y + [m]) == multiset(y) + multiset{m}
  {
  }

  lemma DownClosedOrder(y: Marked, z: Marked)
    requires multiset(y) == multiset(z) && DownClosed(z)
    ensures DownClosed(y)
  {
    forall i, j | 0 <= i < |y| && 0 <= j < |y| && y[i].0.weight < y[j].0.weight && y[j].1 ensures y[i].1 {
      assert y[i] in multiset(z) && y[j] in multiset(z);
    }
  }

  lemma {:induction false} TotalOrder(y: Marked, z: Marked, l: nat, syms: seq<nat>)
    requires multiset(y) == multiset(z)
    ensures Total(y, l, syms) == Total(z, l, syms)
  {
    if syms != [] {
      TotalOrder(y, z, l, syms[..|syms| - 1]);
      OrderFree(y, z, syms[|syms| - 1], l);
    }
  }

  /** Sorting a row, in whatever way, keeps it good. */
  lemma GoodOrder(row: seq<Coin>, sorted: seq<Coin>, l: nat, syms: seq<nat>)
    requires multiset(row) == multiset(sorted) && Good(row, l, syms)
    ensures Good(sorted, l, syms)
  {
    forall z: Marked | Coins(z) == sorted && DownClosed(z) ensures Balanced(z, l, syms) {
      var y := Rearrange(z, row);
      DownClosedOrder(y, z);
      assert Balanced(y, l, syms);
      TotalOrder(y, z, l, syms);
      OrderFree(y, z, 0, l);
      forall k | 0 <= k < |syms| ensures Use(z, syms[k]) <= l { OrderFree(y, z, syms[k], l); }
    }
  }

  // ---------------------------------------------------------------- one round

  /** The coins of the row below that the selected packages consist of. */
  function Unpack(zp: Marked, row: seq<Coin>): (z: Marked)
    requires |zp| == |row| / 2
    ensures |z| == |row|
  {
    seq(|row|, i requires 0 <= i < |row| => (row[i], i / 2 < |zp| && zp[i / 2].1))
  }

  lemma LastTwo(z: Marked, s: nat, l: nat)
    requires |z| >= 2
    ensures var n := |z|;
            Worth(z, l) == Worth(z[..n - 2], l) + (if z[n - 2].1 then Pow2(l) else 0)
                                                + (if z[n - 1].1 then Pow2(l) else 0)
            && Use(z, s) == Use(z[..n - 2], s) + (if z[n - 2].1 then Count(z[n - 2].0.symbols, s) else 0)
                                               + (if z[n - 1].1 then Count(z[n - 1].0.symbols, s) else 0)
  {
    assert z[..|z| - 1][..|z| - 2] == z[..|z| - 2];
  }

  lemma {:induction false} UnpackUse(zp: Marked, row: seq<Coin>, k: nat, s: nat, l: nat)
    requires Coins(zp) == Packages(row) && k <= |zp|
    ensures Use(Unpack(zp, row)[..2 * k], s) == Use(zp[..k], s)
    ensures Worth(Unpack(zp, row)[..2 * k], l) == 2 * Worth(zp[..k], l)
  {
    if k > 0 {
      UnpackUse(zp, row, k - 1, s, l);
      var z := Unpack(zp, row);
      var a := z[..2 * k];
      LastTwo(a, s, l);
      assert a[..2 * k - 2] == z[..2 * (k - 1)];
      assert zp[..k][..k - 1] == zp[..k - 1];
      assert a[2 * k - 1] == (row[2 * k - 1], zp[k - 1].1) && a[2 * k - 2] == (row[2 * k - 2], zp[k - 1].1);
      assert zp[k - 1].0 == Coins(zp)[k - 1] == Merge(row[2 * k - 2], row[2 * k - 1]);
      CountConcat(row[2 * k - 2].symbols, row[2 * k - 1].symbols, s);
    }
  }

  lemma {:induction false} CountConcat(a: seq<nat>, b: seq<nat>, s: nat)
    ensures Count(a + b, s) == Count(a, s) + Count(b, s)
  {
    if b == [] {
      assert a + b == a;
    } else {
      assert (a + b)[..|a + b| - 1] == a + b[..|b| - 1];
      CountConcat(a, b[..|b| - 1], s);
    }
  }

  lemma UnpackAll(zp: Marked, row: seq<Coin>, s: nat, l: nat)
    requires Coins(zp) == Packages(row)
    ensures Use(Unpack(zp, row), s) == Use(zp, s)
    ensures Worth(Unpack(zp, row), l) == 2 * Worth(zp, l)
  {
    var z, k := Unpack(zp, row), |zp|;
    UnpackUse(zp, row, k, s, l);
    assert zp[..k] == zp;
    if 2 * k == |row| {
      assert z[..2 * k] == z;
    } else {
      assert z[..|z| - 1] == z[..2 * k];
      assert (|z| - 1) / 2 == k;
    }
  }

  /** Packages of a sorted row: strictly lighter coins sit in strictly lighter or the same packages. */
  lemma UnpackDownClosed(zp: Marked, row: seq<Coin>)
    requires Coins(zp) == Packages(row) && Sorted(row) && DownClosed(zp)
    ensures DownClosed(Unpack(zp, row))
  {
    var z := Unpack(zp, row);
    forall i, j | 0 <= i < |z| && 0 <= j < |z| && z[i].0.weight < z[j].0.weight && z[j].1 ensures z[i].1 {
      var a, b := i / 2, j / 2;
      assert i < j;
      if a < b {
        assert row[2 * a].weight <= row[2 * b].weight && row[2 * a + 1].weight <= row[2 * b + 1].weight;
        assert row[2 * a].weight <= row[2 * a + 1].weight <= row[2 * b].weight <= row[2 * b + 1].weight;
        assert i == 2 * a || i == 2 * a + 1;
        assert j == 2 * b || j == 2 * b + 1;
        assert zp[a].0 == Coins(zp)[a] && zp[b].0 == Coins(zp)[b];
        assert zp[a].0.weight < zp[b].0.weight;
      }
    }
  }

  lemma {:induction false} UsePositive(z: Marked, s: nat) returns (i: nat)
    requires Use(z, s) > 0
    ensures i < |z| && z[i].1 && s in z[i].0.symbols
  {
    var n := |z| - 1;
    if z[n].1 && Count(z[n].0.symbols, s) > 0 {
      i := n;
      CountPositive(z[n].0.symbols, s);
    } else {
      i := UsePositive(z[..n], s);
    }
  }

  lemma {:induction false} CountPositive(a: seq<nat>, s: nat)
    requires Count(a, s) > 0
    ensures s in a
  {
    var n := |a| - 1;
    if a[n] != s { CountPositive(a[..n], s); }
  }

  /** Among the single-symbol coins only the own coin of a symbol counts for it. */
  lemma {:induction false} UseOfSymbols(zs: Marked, syms: seq<nat>, k: nat)
    requires |zs| == |syms| && k < |syms|
    requires forall i, j | 0 <= i < j < |syms| :: syms[i] != syms[j]
    requires forall i | 0 <= i < |zs| :: zs[i].0.symbols == [syms[i]]
    ensures Use(zs, syms[k]) == if zs[k].1 then 1 else 0
    decreases |zs|
  {
    var n := |zs| - 1;
    assert [syms[n]][..0] == [];
    assert Count([syms[n]], syms[k]) == if syms[n] == syms[k] then 1 else 0;
    if k < n {
      UseOfSymbols(zs[..n], syms[..n], k);
    } else {
      UseAbsent(zs[..n], syms, k);
    }
  }

  lemma {:induction false} UseAbsent(zs: Marked, syms: seq<nat>, k: nat)
    requires |zs| <= k < |syms|
    requires forall i, j | 0 <= i < j < |syms| :: syms[i] != syms[j]
    requires forall i | 0 <= i < |zs| :: zs[i].0.symbols == [syms[i]]
    ensures Use(zs, syms[k]) == 0
    decreases |zs|
  {
    if zs != [] {
      var n := |zs| - 1;
      assert [syms[n]][..0] == [];
      assert Count([syms[n]], syms[k]) == 0;
      UseAbsent(zs[..n], syms, k);
    }
  }

  /**
   * The key step: a symbol selected inside a package is strictly lighter than the package, hence
   * its own coin in the same row is selected as well. The symbols selected at each denomination are
   * nested.
   */
  lemma Nested(zp: Marked, zs: Marked, row: seq<Coin>, freqs: seq<nat>, k: nat)
    requires RowOk(row, freqs) && Coins(zp) == Packages(row) && Coins(zs) == SymbolCoins(freqs)
    requires DownClosed(zp + zs) && k < |Symbols(freqs)| && Use(zp, Symbols(freqs)[k]) > 0
    ensures k < |zs| && zs[k].1
  {
    var i := UsePositive(zp, Symbols(freqs)[k]);
    var z := zp + zs;
    SymbolAt(freqs, k);
    MarkedSymbols(zs, freqs);
    assert zp[i].0 == Coins(zp)[i] == Merge(row[2 * i], row[2 * i + 1]);
    assert zs[k].0 == Coins(zs)[k] == SymbolCoins(freqs)[k];
    assert z[i] == zp[i] && z[|zp| + k] == zs[k];
    assert CoinOk(row[2 * i], freqs) && CoinOk(row[2 * i + 1], freqs);
    assert z[|zp| + k].0.weight < z[i].0.weight;
  }

  lemma RoundUse(zp: Marked, zs: Marked, row: seq<Coin>, freqs: seq<nat>, k: nat)
    requires Coins(zp) == Packages(row) && Coins(zs) == SymbolCoins(freqs) && k < |Symbols(freqs)|
    ensures var s := Symbols(freqs)[k];
            k < |zs| && Use(zp + zs, s) == Use(zp, s) + (if zs[k].1 then 1 else 0)
            && Use(Unpack(zp, row), s) == Use(zp, s)
  {
    var syms := Symbols(freqs);
    UseConcat(zp, zs, syms[k]);
    UnpackAll(zp, row, syms[k], 0);
    SymbolsDistinct(freqs);
    MarkedSymbols(zs, freqs);
    forall i | 0 <= i < |zs| ensures zs[i].0.symbols == [syms[i]] {
      assert zs[i].0 == Coins(zs)[i];
      SymbolAt(freqs, i);
    }
    UseOfSymbols(zs, syms, k);
  }

  /** Each round a selected symbol contributes half of what it still misses. */
  lemma GainStep(l: nat, u: nat, own: bool)
    requires u <= l && (!own ==> u == 0)
    ensures Gain(l + 1, u + (if own then 1 else 0)) == Gain(l, u) + (if own then Pow2(l) else 0)
  {
    assert Pow2(l + 1) == 2 * Pow2(l);
    hide Pow2;
    if own {
      assert l + 1 - (u + 1) == l - u;
    } else {
      assert l - u == l && l + 1 - u == l + 1;
    }
  }

  lemma RoundTerm(zp: Marked, zs: Marked, row: seq<Coin>, freqs: seq<nat>, l: nat, k: nat)
    requires RowOk(row, freqs) && Coins(zp) == Packages(row) && Coins(zs) == SymbolCoins(freqs)
    requires DownClosed(zp + zs) && k < |Symbols(freqs)|
    requires Use(Unpack(zp, row), Symbols(freqs)[k]) <= l
    ensures var s := Symbols(freqs)[k];
            k < |zs| && Use(zp + zs, s) <= l + 1
            && Gain(l + 1, Use(zp + zs, s)) == Gain(l, Use(Unpack(zp, row), s)) + (if zs[k].1 then Pow2(l) else 0)
  {
    MarkedSymbols(zs, freqs);
    hide *;
    RoundUse(zp, zs, row, freqs, k);
    if Use(zp, Symbols(freqs)[k]) > 0 {
      Nested(zp, zs, row, freqs, k);
    }
    GainStep(l, Use(zp, Symbols(freqs)[k]), zs[k].1);
  }

  lemma {:induction false} RoundTotal(zp: Marked, zs: Marked, row: seq<Coin>, freqs: seq<nat>, l: nat, k: nat)
    requires RowOk(row, freqs) && Coins(zp) == Packages(row) && Coins(zs) == SymbolCoins(freqs)
    requires DownClosed(zp + zs) && k <= |Symbols(freqs)|
    requires UsesWithin(Unpack(zp, row), l, Symbols(freqs))
    ensures var syms := Symbols(freqs)[..k];
            k <= |zs| && Total(zp + zs, l + 1, syms) == Total(Unpack(zp, row), l, syms) + Worth(zs[..k], l)
  {
    hide RowOk, Coins, Packages, SymbolCoins, DownClosed, Unpack, Symbols, Use, Gain;
    var syms := Symbols(freqs);
    MarkedSymbols(zs, freqs);
    if k > 0 {
      assert Use(Unpack(zp, row), syms[k - 1]) <= l;
      var z, u := zp + zs, Unpack(zp, row);
      TotalStep(z, l + 1, syms, k);
      TotalStep(u, l, syms, k);
      WorthStep(zs, k, l);
      hide *;
      RoundTotal(zp, zs, row, freqs, l, k - 1);
      RoundTerm(zp, zs, row, freqs, l, k - 1);
    }
  }

  lemma TotalStep(z: Marked, l: nat, syms: seq<nat>, k: nat)
    requires 0 < k <= |syms|
    ensures Total(z, l, syms[..k]) == Total(z, l, syms[..k - 1]) + Gain(l, Use(z, syms[k - 1]))
  {
    assert syms[..k][..k - 1] == syms[..k - 1];
  }

  lemma WorthStep(z: Marked, k: nat, l: nat)
    requires 0 < k <= |z|
    ensures Worth(z[..k], l) == Worth(z[..k - 1], l) + (if z[k - 1].1 then Pow2(l) else 0)
  {
    assert z[..k][..k - 1] == z[..k - 1];
  }

  /** Merging a good sorted row and adding the symbols again gives a good row. */
  lemma GoodRound(row: seq<Coin>, freqs: seq<nat>, l: nat)
    requires RowOk(row, freqs) && Sorted(row) && Good(row, l, Symbols(freqs))
    ensures Good(Packages(row) + SymbolCoins(freqs), l + 1, Symbols(freqs))
  {
    var p, q, syms := Packages(row), SymbolCoins(freqs), Symbols(freqs);
    forall z: Marked | Coins(z) == p + q && DownClosed(z) ensures Balanced(z, l + 1, syms) {
      var zp, zs := SplitMarked(z, p, q);
      GoodSplit(zp, zs, row, freqs, l);
    }
  }

  lemma SplitMarked(z: Marked, p: seq<Coin>, q: seq<Coin>) returns (zp: Marked, zs: Marked)
    requires Coins(z) == p + q
    ensures z == zp + zs && Coins(zp) == p && Coins(zs) == q
  {
    zp, zs := z[..|p|], z[|p|..];
    assert Coins(zp) == Coins(z)[..|p|] && Coins(zs) == Coins(z)[|p|..];
  }

  lemma GoodSplit(zp: Marked, zs: Marked, row: seq<Coin>, freqs: seq<nat>, l: nat)
    requires RowOk(row, freqs) && Sorted(row) && Good(row, l, Symbols(freqs))
    requires Coins(zp) == Packages(row) && Coins(zs) == SymbolCoins(freqs) && DownClosed(zp + zs)
    ensures Balanced(zp + zs, l + 1, Symbols(freqs))
  {
    hide RowOk, Sorted, Good, Coins, Packages, SymbolCoins, DownClosed, UsesWithin, Total, Worth;
    UnpackBalanced(zp, zs, row, freqs, l);
    BalancedRound(zp, zs, row, freqs, l);
    UseRound(zp, zs, row, freqs, l);
  }

  lemma UnpackBalanced(zp: Marked, zs: Marked, row: seq<Coin>, freqs: seq<nat>, l: nat)
    requires Sorted(row) && Good(row, l, Symbols(freqs))
    requires Coins(zp) == Packages(row) && DownClosed(zp + zs)
    ensures Balanced(Unpack(zp, row), l, Symbols(freqs))
  {
    DownClosedPrefix(zp, zs);
    UnpackDownClosed(zp, row);
    hide Balanced, DownClosed, Symbols, Sorted;
    assert Coins(Unpack(zp, row)) == row;
  }

  lemma BalancedRound(zp: Marked, zs: Marked, row: seq<Coin>, freqs: seq<nat>, l: nat)
    requires RowOk(row, freqs) && Coins(zp) == Packages(row) && Coins(zs) == SymbolCoins(freqs)
    requires DownClosed(zp + zs) && Balanced(Unpack(zp, row), l, Symbols(freqs))
    ensures 2 * Total(zp + zs, l + 1, Symbols(freqs)) == Worth(zp + zs, l + 1)
  {
    var u := Unpack(zp, row);
    assert 2 * Total(u, l, Symbols(freqs)) == Worth(u, l) && UsesWithin(u, l, Symbols(freqs));
    hide *;
    RoundTotalAll(zp, zs, row, freqs, l);
    UnpackAll(zp, row, 0, l);
    WorthConcat(zp, zs, l);
    WorthTwice(zp + zs, l);
  }

  lemma RoundTotalAll(zp: Marked, zs: Marked, row: seq<Coin>, freqs: seq<nat>, l: nat)
    requires RowOk(row, freqs) && Coins(zp) == Packages(row) && Coins(zs) == SymbolCoins(freqs)
    requires DownClosed(zp + zs) && UsesWithin(Unpack(zp, row), l, Symbols(freqs))
    ensures Total(zp + zs, l + 1, Symbols(freqs)) == Total(Unpack(zp, row), l, Symbols(freqs)) + Worth(zs, l)
  {
    hide *;
    var syms := Symbols(freqs);
    RoundTotal(zp, zs, row, freqs, l, |syms|);
    MarkedSymbols(zs, freqs);
    assert syms[..|syms|] == syms && zs[..|syms|] == zs;
  }

  lemma UseRound(zp: Marked, zs: Marked, row: seq<Coin>, freqs: seq<nat>, l: nat)
    requires RowOk(row, freqs) && Coins(zp) == Packages(row) && Coins(zs) == SymbolCoins(freqs)
    requires DownClosed(zp + zs)
    requires UsesWithin(Unpack(zp, row), l, Symbols(freqs))
    ensures UsesWithin(zp + zs, l + 1, Symbols(freqs))
  {
    var syms, u := Symbols(freqs), Unpack(zp, row);
    forall k | 0 <= k < |syms| ensures Use(zp + zs, syms[k]) <= l + 1 {
      assert Use(u, syms[k]) <= l;
      RoundTerm(zp, zs, row, freqs, l, k);
    }
  }

  lemma MarkedSymbols(zs: Marked, freqs: seq<nat>)
    requires Coins(zs) == SymbolCoins(freqs)
    ensures |zs| == |Symbols(freqs)|
  {
    SymbolCount(freqs);
  }

  lemma DownClosedPrefix(zp: Marked, zs: Marked)
    requires DownClosed(zp + zs)
    ensures DownClosed(zp)
  {
    var z := zp + zs;
    assert forall i | 0 <= i < |zp| :: z[i] == zp[i];
  }

  lemma RowOkRound(row: seq<Coin>, freqs: seq<nat>)
    requires RowOk(row, freqs)
    ensures RowOk(Packages(row), freqs) && RowOk(SymbolCoins(freqs), freqs)
    ensures RowOk(Packages(row) + SymbolCoins(freqs), freqs)
  {
    SymbolCount(freqs);
    forall k | 0 <= k < |SymbolCoins(freqs)| ensures CoinOk(SymbolCoins(freqs)[k], freqs) { SymbolAt(freqs, k); }
  }

  lemma RowOkOrder(row: seq<Coin>, sorted: seq<Coin>, freqs: seq<nat>)
    requires RowOk(row, freqs) && multiset(row) == multiset(sorted)
    ensures RowOk(sorted, freqs)
  {
    forall i | 0 <= i < |sorted| ensures CoinOk(sorted[i], freqs) {
      assert sorted[i] in multiset(row);
    }
  }

  // ---------------------------------------------------------------- the chosen coins

  /** k * 2^l */
  function Copies(k: nat, l: nat): nat {
    if k == 0 then 0 else Copies(k - 1, l) + Pow2(l)
  }

  /** The first m coins of a row selected. */
  function Take(row: seq<Coin>, m: nat): (z: Marked)
    ensures Coins(z) == row
  {
    seq(|row|, i requires 0 <= i < |row| => (row[i], i < m))
  }

  lemma {:induction false} TakeWorth(row: seq<Coin>, m: nat, k: nat, l: nat)
    requires m <= |row| && k <= |row|
    ensures Worth(Take(row, m)[..k], l) == Copies(if k <= m then k else m, l)
  {
    if k > 0 {
      TakeWorth(row, m, k - 1, l);
      WorthStep(Take(row, m), k, l);
    }
  }

  /** Choosing the m lightest packages of a good row gives a selection with a known total. */
  lemma ChosenBalanced(row: seq<Coin>, last: seq<Coin>, m: nat, L: nat, syms: seq<nat>)
    requires Sorted(row) && Good(row, L, syms) && Sorted(last)
    requires multiset(last) == multiset(Packages(row)) && m <= |last|
    ensures UsesWithin(Take(last, m), L, syms)
    ensures Total(Take(last, m), L, syms) == Copies(m, L)
  {
    var z := Take(last, m);
    var p := Packages(row);
    assert DownClosed(z);
    var zp := Rearrange(z, p);
    DownClosedOrder(zp, z);
    UnpackDownClosed(zp, row);
    var u := Unpack(zp, row);
    assert Coins(u) == row;
    assert Balanced(u, L, syms);
    TakeWorth(last, m, |last|, L);
    assert z[..|last|] == z;
    hide Good, DownClosed, Sorted, Coins, Packages, Unpack, Total, Worth, Use, Take;
    UnpackAll(zp, row, 0, L);
    OrderFree(zp, z, 0, L);
    UnpackTotal(zp, row, L, syms);
    TotalOrder(zp, z, L, syms);
    forall k | 0 <= k < |syms| ensures Use(z, syms[k]) <= L {
      assert Use(u, syms[k]) <= L;
      UnpackAll(zp, row, syms[k], L);
      OrderFree(zp, z, syms[k], L);
    }
  }

  lemma {:induction false} UnpackTotal(zp: Marked, row: seq<Coin>, l: nat, syms: seq<nat>)
    requires Coins(zp) == Packages(row)
    ensures Total(Unpack(zp, row), l, syms) == Total(zp, l, syms)
  {
    if syms != [] {
      UnpackTotal(zp, row, l, syms[..|syms| - 1]);
      UnpackAll(zp, row, syms[|syms| - 1], l);
    }
  }

  lemma {:induction false} TotalAtMost(z: Marked, l: nat, syms: seq<nat>, k: nat)
    requires k < |syms| ==> Use(z, syms[k]) == 0
    ensures var m := if k < |syms| then |syms| - 1 else |syms|;
            Total(z, l, syms) <= Copies(m, l) - m
  {
    var m := |syms| - 1;
    if syms != [] {
      TotalAtMost(z, l, syms[..m], k);
      assert Gain(l, Use(z, syms[m])) <= Pow2(l) - 1;
    }
  }

  /** Every symbol gets a code: without one of them the total could not be reached. */
  lemma EverySymbolUsed(z: Marked, l: nat, syms: seq<nat>, k: nat)
    requires |syms| >= 2 && Total(z, l, syms) == Copies(|syms| - 1, l) && k < |syms|
    ensures Use(z, syms[k]) > 0
  {
    if Use(z, syms[k]) == 0 {
      TotalAtMost(z, l, syms, k);
    }
  }

  ghost predicate LengthsOf(lens: seq<nat>, z: Marked, freqs: seq<nat>) {
    && |lens| == |freqs|
    && forall i | 0 <= i < |lens| :: lens[i] == Use(z, i) && (freqs[i] == 0 ==> lens[i] == 0)
  }

  /** The Kraft sum is what the total leaves over. */
  lemma {:induction false} KraftFromTotal(lens: seq<nat>, z: Marked, freqs: seq<nat>, L: nat, m: nat)
    requires LengthsOf(lens, z, freqs) && Bounded(lens, L) && m <= |lens|
    requires forall i | 0 <= i < |lens| && freqs[i] > 0 :: lens[i] > 0
    ensures Kraft(lens[..m], L) + Total(z, L, Symbols(freqs[..m])) == Copies(|Symbols(freqs[..m])|, L)
  {
    if m == 0 {
      assert lens[..0] == [] && freqs[..0] == [];
    } else {
      KraftStep(lens, L, m);
      SymbolsStep(freqs, m);
      TotalSnoc(z, L, Symbols(freqs[..m - 1]), m - 1);
      WeightGain(lens[m - 1], L);
      CopiesStep(|Symbols(freqs[..m - 1])|, L);
      assert freqs[m - 1] > 0 ==> lens[m - 1] > 0;
      assert lens[m - 1] == Use(z, m - 1) <= L && (freqs[m - 1] == 0 ==> lens[m - 1] == 0);
      KraftFromTotal(lens, z, freqs, L, m - 1);
      hide *;
    }
  }

  lemma TotalSnoc(z: Marked, l: nat, syms: seq<nat>, s: nat)
    ensures Total(z, l, syms + [s]) == Total(z, l, syms) + Gain(l, Use(z, s))
  {
    assert (syms + [s])[..|syms|] == syms;
  }

  lemma WeightGain(len: nat, L: nat)
    requires len <= L
    ensures Weight(len, L) + Gain(L, len) == if len == 0 then 0 else Pow2(L)
  {
  }

  lemma CopiesStep(k: nat, l: nat)
    ensures Copies(k + 1, l) == Copies(k, l) + Pow2(l)
  {
  }

  lemma KraftStep(lens: seq<nat>, L: nat, m: nat)
    requires Bounded(lens, L) && 0 < m <= |lens|
    ensures Kraft(lens[..m], L) == Kraft(lens[..m - 1], L) + Weight(lens[m - 1], L)
  {
    assert lens[..m][..m - 1] == lens[..m - 1];
  }

  lemma SymbolsStep(freqs: seq<nat>, m: nat)
    requires 0 < m <= |freqs|
    ensures Symbols(freqs[..m]) ==
            if freqs[m - 1] > 0 then Symbols(freqs[..m - 1]) + [m - 1] else Symbols(freqs[..m - 1])
  {
    assert freqs[..m][..m - 1] == freqs[..m - 1];
  }

  lemma {:induction false} SymbolIndex(freqs: seq<nat>, i: nat) returns (k: nat)
    requires i < |freqs| && freqs[i] > 0
    ensures k < |Symbols(freqs)| && Symbols(freqs)[k] == i
  {
    var n := |freqs| - 1;
    if i == n {
      k := |Symbols(freqs)| - 1;
    } else {
      k := SymbolIndex(freqs[..n], i);
    }
  }

  /** The chosen packages give a complete code with exactly the present symbols. */
  lemma ChosenComplete(row: seq<Coin>, last: seq<Coin>, lens: seq<nat>, freqs: seq<nat>, L: nat)
    requires Sorted(row) && Good(row, L, Symbols(freqs)) && Sorted(last) && RowOk(last, freqs)
    requires multiset(last) == multiset(Packages(row)) && 2 <= |Symbols(freqs)| <= |last| + 1
    requires |lens| == |freqs|
    requires forall i | 0 <= i < |lens| :: lens[i] == Use(Take(last, |Symbols(freqs)| - 1), i)
    ensures Complete(lens, L)
    ensures forall i | 0 <= i < |lens| :: lens[i] > 0 <==> freqs[i] > 0
  {
    var syms := Symbols(freqs);
    var z := Take(last, |syms| - 1);
    ChosenBalanced(row, last, |syms| - 1, L, syms);
    ChosenLengths(z, last, lens, freqs, L);
    ChosenKraft(z, lens, freqs, L);
  }

  lemma ChosenKraft(z: Marked, lens: seq<nat>, freqs: seq<nat>, L: nat)
    requires LengthsOf(lens, z, freqs) && Bounded(lens, L) && Symbols(freqs) != []
    requires forall i | 0 <= i < |lens| && freqs[i] > 0 :: lens[i] > 0
    requires Total(z, L, Symbols(freqs)) == Copies(|Symbols(freqs)| - 1, L)
    ensures Kraft(lens, L) == Pow2(L)
  {
    KraftFromTotal(lens, z, freqs, L, |lens|);
    assert lens[..|lens|] == lens && freqs[..|lens|] == freqs;
    CopiesStep(|Symbols(freqs)| - 1, L);
  }

  lemma ChosenLengths(z: Marked, last: seq<Coin>, lens: seq<nat>, freqs: seq<nat>, L: nat)
    requires RowOk(last, freqs) && Coins(z) == last && |Symbols(freqs)| >= 2
    requires UsesWithin(z, L, Symbols(freqs)) && Total(z, L, Symbols(freqs)) == Copies(|Symbols(freqs)| - 1, L)
    requires |lens| == |freqs| && forall i | 0 <= i < |lens| :: lens[i] == Use(z, i)
    ensures Bounded(lens, L)
    ensures forall i | 0 <= i < |lens| :: lens[i] > 0 <==> freqs[i] > 0
  {
    var syms := Symbols(freqs);
    forall i: nat | i < |lens|
      ensures lens[i] <= L && (lens[i] > 0 <==> freqs[i] > 0)
    {
      if freqs[i] > 0 {
        var k := SymbolIndex(freqs, i);
        assert Use(z, syms[k]) <= L;
        EverySymbolUsed(z, L, syms, k);
      } else {
        forall k | 0 <= k < |z| ensures CoinOk(z[k].0, freqs) { assert z[k].0 == Coins(z)[k]; }
        UseMissing(z, freqs, i);
      }
    }
  }

  lemma {:induction false} UseMissing(z: Marked, freqs: seq<nat>, i: nat)
    requires forall k | 0 <= k < |z| :: CoinOk(z[k].0, freqs)
    requires i < |freqs| && freqs[i] == 0
    ensures Use(z, i) == 0
  {
    if z != [] {
      var n := |z| - 1;
      UseMissing(z[..n], freqs, i);
      CountAbsent(z[n].0.symbols, i);
    }
  }

  lemma {:induction false} CountAbsent(a: seq<nat>, s: nat)
    requires s !in a
    ensures Count(a, s) == 0
  {
    if a != [] { CountAbsent(a[..|a| - 1], s); }
  }
}
