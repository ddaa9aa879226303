/** The package-merge algorithm, which computes optimal length-limited code lengths. */
module PackageMerge {
  import opened Bits
  import opened Canonical
  import opened CoinRows
  import opened Optimal

  /** The library sort of the first n coins; any order among equal weights would do. */
  method SortCoins(a: array<Coin>, n: nat)
    requires n <= a.Length
    modifies a
    ensures multiset(a[..n]) == multiset(old(a[..n])) && Sorted(a[..n])
    ensures a[n..] == old(a[n..])
  {
    hide Sorted;
    var sorted := SortedCopy(a[..n]);
    Replace(a, sorted);
  }

  method SortedCopy(row: seq<Coin>) returns (sorted: seq<Coin>)
    ensures |sorted| == |row| && multiset(sorted) == multiset(row) && Sorted(sorted)
  {
    sorted := [];
    for i := 0 to |row|
      invariant |sorted| == i && Sorted(sorted) && multiset(sorted) == multiset(row[..i])
    {
      assert row[..i + 1] == row[..i] + [row[i]];
      sorted := InsertSorted(sorted, row[i]);
    }
    assert row[..|row|] == row;
  }

  method Replace(a: array<Coin>, row: seq<Coin>)
    requires |row| <= a.Length
    modifies a
    ensures a[..|row|] == row && a[|row|..] == old(a[|row|..])
  {
    for i := 0 to |row|
      invariant a[..i] == row[..i] && a[|row|..] == old(a[|row|..])
    {
      a[i] := row[i];
    }
  }

  method InsertSorted(row: seq<Coin>, c: Coin) returns (r: seq<Coin>)
    requires Sorted(row)
    ensures |r| == |row| + 1 && Sorted(r) && multiset(r) == multiset(row) + multiset{c}
  {
    var k := |row|;
    while k > 0 && row[k - 1].weight > c.weight
      invariant 0 <= k <= |row| && forall i | k <= i < |row| :: row[i].weight > c.weight
    {
      k := k - 1;
    }
    r := row[..k] + [c] + row[k..];
    InsertAt(row, c, k);
  }

  lemma InsertAt(row: seq<Coin>, c: Coin, k: nat)
    requires Sorted(row) && k <= |row|
    requires k > 0 ==> row[k - 1].weight <= c.weight
    requires forall i | k <= i < |row| :: row[i].weight > c.weight
    ensures Sorted(row[..k] + [c] + row[k..])
    ensures multiset(row[..k] + [c] + row[k..]) == multiset(row) + multiset{c}
  {
    assert row == row[..k] + row[k..];
    InsertAtSorted(row, c, k);
    hide Sorted;
  }

  lemma InsertAtSorted(row: seq<Coin>, c: Coin, k: nat)
    requires Sorted(row) && k <= |row|
    requires k > 0 ==> row[k - 1].weight <= c.weight
    requires forall i | k <= i < |row| :: row[i].weight > c.weight
    ensures Sorted(row[..k] + [c] + row[k..])
  {
    var r := row[..k] + [c] + row[k..];
    forall i, j | 0 <= i < j < |r| ensures r[i].weight <= r[j].weight {
      assert r[i] == if i < k then row[i] else if i == k then c else row[i - 1];
      assert r[j] == if j < k then row[j] else if j == k then c else row[j - 1];
    }
  }

  /** append_symbol_coins */
  method AppendSymbolCoins(coins: array<Coin>, start: nat, frequencies: seq<nat>) returns (j: nat)
    requires start + |Symbols(frequencies)| <= coins.Length
    modifies coins
    ensures j == start + |Symbols(frequencies)|
    ensures coins[..j] == old(coins[..start]) + SymbolCoins(frequencies)
  {
    hide Symbols, SymbolCoins;
    j := start;
    ghost var before := coins[..start];
    NoSymbols(frequencies);
    for i := 0 to |frequencies|
      invariant j == start + |Symbols(frequencies[..i])| <= coins.Length
      invariant coins[..j] == before + SymbolCoins(frequencies[..i])
    {
      SymbolsStep(frequencies, i + 1);
      SymbolCoinsStep(frequencies, i + 1);
      SymbolsGrow(frequencies, i + 1);
      if frequencies[i] != 0 {
        PutCoin(coins, j, Coin([i], frequencies[i]));
        j := j + 1;
      }
    }
    assert frequencies[..|frequencies|] == frequencies;
  }

  method PutCoin(coins: array<Coin>, j: nat, c: Coin)
    requires j < coins.Length
    modifies coins
    ensures coins[..j + 1] == old(coins[..j]) + [c]
  {
    coins[j] := c;
  }

  lemma NoSymbols(freqs: seq<nat>)
    ensures Symbols(freqs[..0]) == [] && SymbolCoins(freqs[..0]) == []
  {
  }

  lemma SymbolCoinsStep(freqs: seq<nat>, m: nat)
    requires 0 < m <= |freqs|
    ensures SymbolCoins(freqs[..m]) ==
            if freqs[m - 1] > 0 then SymbolCoins(freqs[..m - 1]) + [Coin([m - 1], freqs[m - 1])]
            else SymbolCoins(freqs[..m - 1])
  {
    assert freqs[..m][..m - 1] == freqs[..m - 1];
  }

  lemma {:induction false} SymbolsGrow(freqs: seq<nat>, m: nat)
    requires m <= |freqs|
    ensures |Symbols(freqs[..m])| <= |Symbols(freqs)|
    decreases |freqs| - m
  {
    if m < |freqs| {
      SymbolsGrow(freqs, m + 1);
      SymbolsStep(freqs, m + 1);
    } else {
      assert freqs[..m] == freqs;
    }
  }

  /** The coins of the next row: merged ones, then the symbols again, all sorted. */
  method NextRow(prev: array<Coin>, numprev: nat, coins: array<Coin>, frequencies: seq<nat>, withSymbols: bool)
    returns (numcoins: nat)
    requires prev != coins && numprev <= prev.Length && numprev < 2 * |Symbols(frequencies)| <= coins.Length
    modifies coins
    ensures numcoins == numprev / 2 + (if withSymbols then |Symbols(frequencies)| else 0) <= coins.Length
    ensures Sorted(coins[..numcoins])
    ensures multiset(coins[..numcoins]) ==
            multiset(Packages(prev[..numprev]) + (if withSymbols then SymbolCoins(frequencies) else []))
  {
    numcoins := 0;
    var i := 0;
    ghost var row := prev[..numprev];
    while i + 1 < numprev
      invariant i == 2 * numcoins <= numprev
      invariant coins[..numcoins] == Packages(row)[..numcoins]
    {
      coins[numcoins] := Merge(prev[i], prev[i + 1]);
      numcoins := numcoins + 1;
      i := i + 2;
    }
    assert coins[..numcoins] == Packages(row);
    if withSymbols {
      numcoins := AppendSymbolCoins(coins, numcoins, frequencies);
    } else {
      assert Packages(row) + [] == Packages(row);
    }
    SortCoins(coins, numcoins);
  }

  /** The state between two rounds: row j of n symbols, of which at most 2^L are wanted. */
  ghost predicate RowState(row: seq<Coin>, freqs: seq<nat>, L: nat, j: nat) {
    && 1 <= j <= L
    && Sorted(row) && RowOk(row, freqs) && Good(row, j, Symbols(freqs))
    && RowWeighed(row, freqs) && Cheap(row, freqs, L, j)
    && |row| < 2 * |Symbols(freqs)| <= |row| + Pow2(L - j + 1)
  }

  lemma GoodEmpty(syms: seq<nat>)
    ensures Good([], 0, syms)
  {
    forall z: Marked | Coins(z) == [] && DownClosed(z) ensures Balanced(z, 0, syms) {
      assert z == [];
      TotalEmpty(syms);
    }
  }

  lemma {:induction false} TotalEmpty(syms: seq<nat>)
    ensures Total([], 0, syms) == 0
  {
    if syms != [] { TotalEmpty(syms[..|syms| - 1]); }
  }

  lemma RowOkEmpty(freqs: seq<nat>)
    ensures RowOk([], freqs) && Sorted([]) && RowWeighed([], freqs) && Packages([]) == []
  {
  }

  lemma FirstRow(row: seq<Coin>, freqs: seq<nat>, L: nat)
    requires L > 0 && 2 <= |Symbols(freqs)| <= Pow2(L)
    requires Sorted(row) && multiset(row) == multiset(SymbolCoins(freqs)) && |row| == |Symbols(freqs)|
    ensures RowState(row, freqs, L, 1)
  {
    hide RowOk, Sorted, Good, RowWeighed, Cheap;
    GoodEmpty(Symbols(freqs));
    RowOkEmpty(freqs);
    GoodRound([], freqs, 0);
    assert Packages([]) + SymbolCoins(freqs) == SymbolCoins(freqs);
    RowOkRound([], freqs);
    GoodOrder(SymbolCoins(freqs), row, 1, Symbols(freqs));
    RowOkOrder(SymbolCoins(freqs), row, freqs);
    CheapStart(freqs, L);
    CheapRound([], row, freqs, L, 0);
    WeighedRound([], row, freqs, true);
  }

  lemma MiddleRow(row: seq<Coin>, next: seq<Coin>, freqs: seq<nat>, L: nat, j: nat)
    requires RowState(row, freqs, L, j) && j < L
    requires Sorted(next) && multiset(next) == multiset(Packages(row) + SymbolCoins(freqs))
    requires |next| == |row| / 2 + |Symbols(freqs)|
    ensures RowState(next, freqs, L, j + 1)
  {
    hide RowOk, Sorted, Good, RowWeighed, Cheap, Packages, Symbols, SymbolCoins;
    GoodRound(row, freqs, j);
    RowOkRound(row, freqs);
    var r := Packages(row) + SymbolCoins(freqs);
    GoodOrder(r, next, j + 1, Symbols(freqs));
    RowOkOrder(r, next, freqs);
    CheapRound(row, next, freqs, L, j);
    WeighedRound(row, next, freqs, true);
    assert Pow2(L - j + 1) == 2 * Pow2(L - (j + 1) + 1);
  }

  /** append_symbol_coins with sorting: the first row, lowest denominator. */
  method FirstCoins(coins: array<Coin>, frequencies: seq<nat>, ghost L: nat) returns (numcoins: nat)
    requires L > 0 && 2 <= |Symbols(frequencies)| <= Pow2(L) && coins.Length == 2 * |Symbols(frequencies)|
    modifies coins
    ensures numcoins <= coins.Length && RowState(coins[..numcoins], frequencies, L, 1)
  {
    numcoins := AppendSymbolCoins(coins, 0, frequencies);
    assert coins[..numcoins] == SymbolCoins(frequencies);
    SortCoins(coins, numcoins);
    FirstRow(coins[..numcoins], frequencies, L);
  }

  /** Counts the symbols of one coin. */
  method AddUses(lengths: array<nat>, symbols: seq<nat>, ghost freqs: seq<nat>)
    requires lengths.Length == |freqs| && forall s | s in symbols :: s < |freqs|
    modifies lengths
    ensures forall s | 0 <= s < lengths.Length :: lengths[s] == old(lengths[s]) + Count(symbols, s)
    ensures Cost(freqs, lengths[..], |freqs|)
            == old(Cost(freqs, lengths[..], |freqs|)) + WeightOf(symbols, freqs, |symbols|)
  {
    hide Cost;
    for j := 0 to |symbols|
      invariant forall s | 0 <= s < lengths.Length :: lengths[s] == old(lengths[s]) + Count(symbols[..j], s)
      invariant Cost(freqs, lengths[..], |freqs|)
                == old(Cost(freqs, lengths[..], |freqs|)) + WeightOf(symbols, freqs, j)
    {
      assert symbols[..j + 1][..j] == symbols[..j] && symbols[j] in symbols;
      ghost var lens := lengths[..];
      CostBump(freqs, lens, symbols[j], |freqs|);
      lengths[symbols[j]] := lengths[symbols[j]] + 1;
      assert lengths[..] == lens[symbols[j] := lens[symbols[j]] + 1];
    }
    assert symbols[..|symbols|] == symbols;
  }

  /** Counts how often each symbol is used in the chosen coins. */
  method CountUses(lengths: array<nat>, coins: array<Coin>, numcoins: nat, chosen: nat, ghost freqs: seq<nat>)
    requires chosen <= numcoins <= coins.Length && RowWeighed(coins[..numcoins], freqs) && lengths.Length == |freqs|
    requires forall i | 0 <= i < lengths.Length :: lengths[i] == 0
    modifies lengths
    ensures forall i | 0 <= i < lengths.Length :: lengths[i] == Use(Take(coins[..numcoins], chosen), i)
    ensures Cost(freqs, lengths[..], |freqs|) == Weighs(coins[..numcoins], chosen)
  {
    hide Cost, Weighs, Use, Take;
    ghost var row := coins[..numcoins];
    ghost var z := Take(row, chosen);
    NothingUsed(freqs, lengths[..], z, row);
    for i := 0 to chosen
      invariant forall s | 0 <= s < lengths.Length :: lengths[s] == Use(z[..i], s)
      invariant Cost(freqs, lengths[..], |freqs|) == Weighs(row, i)
    {
      assert Weighed(row[i], freqs);
      AddUses(lengths, coins[i].symbols, freqs);
      OneMoreUsed(row, chosen, z, i, i + 1);
    }
    forall s: nat | s < lengths.Length ensures lengths[s] == Use(z, s) {
      UseTaken(row, chosen, |z|, s);
      assert z[..|z|] == z;
    }
  }

  lemma NothingUsed(freqs: seq<nat>, lens: seq<nat>, z: Marked, row: seq<Coin>)
    requires |lens| == |freqs| && forall i | 0 <= i < |lens| :: lens[i] == 0
    ensures forall s :: Use(z[..0], s) == 0
    ensures Cost(freqs, lens, |freqs|) == Weighs(row, 0) == 0
  {
    CostNothing(freqs, lens, |freqs|);
  }

  lemma OneMoreUsed(row: seq<Coin>, chosen: nat, z: Marked, i: nat, n: nat)
    requires z == Take(row, chosen) && i < chosen <= |row| && n == i + 1
    ensures forall s :: Use(z[..n], s) == Use(z[..i], s) + Count(row[i].symbols, s)
    ensures Weighs(row, n) == Weighs(row, i) + row[i].weight
  {
    assert z[..n][..i] == z[..i] && z[i] == (row[i], true);
  }

  lemma {:induction false} UseTaken(row: seq<Coin>, m: nat, k: nat, s: nat)
    requires m <= k <= |row|
    ensures Use(Take(row, m)[..k], s) == Use(Take(row, m)[..m], s)
  {
    if k > m {
      UseTaken(row, m, k - 1, s);
      assert Take(row, m)[..k][..k - 1] == Take(row, m)[..k - 1];
    }
  }

  method PackageMergeLengths(lengths: array<nat>, frequencies: seq<nat>, numpresent: nat, maxbitlen: nat)
    requires lengths.Length == |frequencies| && numpresent == |Symbols(frequencies)|
    requires maxbitlen > 0 && 2 <= numpresent <= Pow2(maxbitlen)
    requires forall i | 0 <= i < lengths.Length :: lengths[i] == 0
    modifies lengths
    ensures Complete(lengths[..], maxbitlen) && Cheapest(lengths[..], frequencies, maxbitlen)
    ensures forall i | 0 <= i < lengths.Length :: lengths[i] > 0 <==> frequencies[i] > 0
  {
    hide RoundState, Sorted, Packages, SymbolCoins, Symbols, Complete, Pow2, RowState, Good,
      RowOk, RowWeighed, Cost, Weighs, Cheapest, Take, Use;
    var coinmem := numpresent * 2;
    var coins, prev_row := new Coin[coinmem](_ => Coin([], 0)), new Coin[coinmem](_ => Coin([], 0));
    var numcoins: nat := FirstCoins(coins, frequencies, maxbitlen);
    var numprev: nat := 0;
    ghost var last: seq<Coin> := [];
    FirstState(coins[..numcoins], frequencies, maxbitlen);
    for j := 1 to maxbitlen + 1
      invariant fresh(coins) && fresh(prev_row) && coins != prev_row
      invariant coins.Length == prev_row.Length == coinmem && numcoins <= coinmem && numprev <= coinmem
      invariant forall i | 0 <= i < lengths.Length :: lengths[i] == 0
      invariant RoundState(coins[..numcoins], last, frequencies, maxbitlen, j)
    {
      prev_row, coins := coins, prev_row;
      numprev, numcoins := numcoins, numprev;
      ghost var before := last;
      last := prev_row[..numprev];
      RoundSize(last, before, frequencies, maxbitlen, j);
      numcoins := NextRow(prev_row, numprev, coins, frequencies, j < maxbitlen);
      assert prev_row[..numprev] == last;
      RoundStep(last, coins[..numcoins], frequencies, maxbitlen, j);
    }
    RoundSize(coins[..numcoins], last, frequencies, maxbitlen, maxbitlen + 1);
    FinalRowOk(coins[..numcoins], last, frequencies, maxbitlen);
    CountUses(lengths, coins, numcoins, numpresent - 1, frequencies);
    ChosenBest(last, coins[..numcoins], lengths[..], frequencies, maxbitlen);
  }

  /** The chosen packages give a complete code, and no other code of limited length is cheaper. */
  lemma ChosenBest(row: seq<Coin>, last: seq<Coin>, lens: seq<nat>, freqs: seq<nat>, L: nat)
    requires RoundState(last, row, freqs, L, L + 1) && L > 0 && 2 <= |Symbols(freqs)| <= |last| + 1 && |lens| == |freqs|
    requires forall i | 0 <= i < |lens| :: lens[i] == Use(Take(last, |Symbols(freqs)| - 1), i)
    requires Cost(freqs, lens, |freqs|) == Weighs(last, |Symbols(freqs)| - 1)
    ensures Complete(lens, L) && Cheapest(lens, freqs, L)
    ensures forall i | 0 <= i < |lens| :: lens[i] > 0 <==> freqs[i] > 0
  {
    hide Good, Sorted, Cheap, Cheapest, Complete, Packages, Symbols, Cost, Weighs, RowOk, RowWeighed;
    FinalRowOk(last, row, freqs, L);
    ChosenComplete(row, last, lens, freqs, L);
    ChosenCheapest(row, last, freqs, lens, L);
  }

  /** Before round j: rows 1..L, and after round L the merged coins of the last row. */
  ghost predicate RoundState(row: seq<Coin>, last: seq<Coin>, freqs: seq<nat>, L: nat, j: nat) {
    if j <= L then RowState(row, freqs, L, j)
    else
      && RowState(last, freqs, L, L) && RowWeighed(row, freqs)
      && Sorted(row) && |row| == |last| / 2 && multiset(row) == multiset(Packages(last))
  }

  lemma FirstState(row: seq<Coin>, freqs: seq<nat>, L: nat)
    requires RowState(row, freqs, L, 1)
    ensures RoundState(row, [], freqs, L, 1)
  {
  }

  /** There are never too many coins, and in the end enough of them. */
  lemma RoundSize(row: seq<Coin>, last: seq<Coin>, freqs: seq<nat>, L: nat, j: nat)
    requires RoundState(row, last, freqs, L, j) && 0 < j <= L + 1
    ensures j <= L ==> RowState(row, freqs, L, j) && |row| < 2 * |Symbols(freqs)|
    ensures j == L + 1 ==> |Symbols(freqs)| <= |row| + 1
  {
    hide Good, Sorted, Symbols, RowOk;
  }

  lemma RoundStep(row: seq<Coin>, next: seq<Coin>, freqs: seq<nat>, L: nat, j: nat)
    requires RowState(row, freqs, L, j) && Sorted(next)
    requires multiset(next) == multiset(Packages(row) + (if j < L then SymbolCoins(freqs) else []))
    requires |next| == |row| / 2 + (if j < L then |Symbols(freqs)| else 0)
    ensures RoundState(next, row, freqs, L, j + 1)
  {
    hide RowOk, Good, RowWeighed, Cheap, Packages, Sorted, SymbolCoins, Symbols, Pow2;
    if j < L {
      MiddleRow(row, next, freqs, L, j);
    } else {
      WeighedRound(row, next, freqs, false);
      assert Packages(row) + [] == Packages(row);
    }
  }

  lemma FinalRowOk(row: seq<Coin>, last: seq<Coin>, freqs: seq<nat>, L: nat)
    requires RoundState(row, last, freqs, L, L + 1)
    ensures RowOk(row, freqs) && RowWeighed(row, freqs) && Sorted(row) && RowState(last, freqs, L, L)
    ensures multiset(row) == multiset(Packages(last))
  {
    RowOkRound(last, freqs);
    RowOkOrder(Packages(last), row, freqs);
  }

  /** lodepng_huffman_code_lengths */
  method CodeLengths(lengths: array<nat>, frequencies: seq<nat>, numcodes: nat, maxbitlen: nat) returns (error: nat)
    requires lengths.Length == |frequencies| == numcodes != 1
    requires maxbitlen > 0 && |Symbols(frequencies)| <= Pow2(maxbitlen)
    modifies lengths
    ensures error == if numcodes == 0 then 80 else 0
    ensures error == 0 ==> Complete(lengths[..], maxbitlen)
    ensures error == 0 ==> forall i | 0 <= i < numcodes && frequencies[i] > 0 :: lengths[i] > 0
    ensures error == 0 ==> Cheapest(lengths[..], frequencies, maxbitlen)
    ensures |Symbols(frequencies)| >= 2 ==> forall i | 0 <= i < numcodes && lengths[i] > 0 :: frequencies[i] > 0
  {
    if numcodes == 0 {
      assert frequencies == [];
      return 80;
    }
    error := 0;
    var numpresent := 0;
    assert frequencies[..0] == [];
    for i := 0 to numcodes
      invariant numpresent == |Symbols(frequencies[..i])|
    {
      SymbolsStep(frequencies, i + 1);
      if frequencies[i] > 0 {
        numpresent := numpresent + 1;
      }
    }
    assert frequencies[..numcodes] == frequencies;
    for i := 0 to numcodes
      invariant forall k | 0 <= k < i :: lengths[k] == 0
    {
      lengths[i] := 0;
    }
    if numpresent == 0 {
      lengths[0], lengths[1] := 1, 1;
      TwoCodes(lengths[..], 0, 1, maxbitlen);
      NothingCheapest(frequencies, lengths[..], maxbitlen);
      forall i: nat | i < numcodes ensures frequencies[i] == 0 {
        if frequencies[i] > 0 { var k := SymbolIndex(frequencies, i); }
      }
    } else if numpresent == 1 {
      var i := 0;
      SymbolAt(frequencies, 0);
      ghost var s := Symbols(frequencies)[0];
      while frequencies[i] == 0
        invariant 0 <= i <= s
        invariant forall k | 0 <= k < lengths.Length :: lengths[k] == 0
        decreases s - i
      {
        i := i + 1;
      }
      lengths[i] := 1;
      lengths[if i == 0 then 1 else 0] := 1;
      if i == 0 { TwoCodes(lengths[..], 0, 1, maxbitlen); } else { TwoCodes(lengths[..], 0, i, maxbitlen); }
      forall k: nat | k < numcodes && frequencies[k] > 0 ensures k == i {
        var a := SymbolIndex(frequencies, k);
        var b := SymbolIndex(frequencies, i);
      }
      OneSymbolCheapest(frequencies, lengths[..], i, maxbitlen);
    } else {
      SymbolCount(frequencies);
      PackageMergeLengths(lengths, frequencies, numpresent, maxbitlen);
    }
  }

  /** Without symbols every code is as cheap as any other. */
  lemma NothingCheapest(freqs: seq<nat>, lens: seq<nat>, L: nat)
    requires |lens| == |freqs| && Symbols(freqs) == []
    ensures Cheapest(lens, freqs, L)
  {
    forall i: nat | i < |freqs| ensures freqs[i] == 0 {
      if freqs[i] > 0 { var k := SymbolIndex(freqs, i); }
    }
    CostNothing(freqs, lens, |freqs|);
  }

  /** Two codes of one bit are complete. */
  lemma TwoCodes(lens: seq<nat>, a: nat, b: nat, L: nat)
    requires L > 0 && a < b < |lens| && lens[a] == lens[b] == 1
    requires forall i | 0 <= i < |lens| && i != a && i != b :: lens[i] == 0
    ensures Complete(lens, L)
  {
    KraftOfTwo(lens, a, b, L, |lens|);
    assert lens[..|lens|] == lens;
  }

  lemma {:induction false} KraftOfTwo(lens: seq<nat>, a: nat, b: nat, L: nat, m: nat)
    requires L > 0 && a < b < |lens| && lens[a] == lens[b] == 1 && m <= |lens|
    requires forall i | 0 <= i < |lens| && i != a && i != b :: lens[i] == 0
    ensures Kraft(lens[..m], L) == if m <= a then 0 else if m <= b then Pow2(L - 1) else Pow2(L)
  {
    if m > 0 {
      KraftOfTwo(lens, a, b, L, m - 1);
      KraftStep(lens, L, m);
    }
  }
}
