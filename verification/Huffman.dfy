/** The Huffman tree structure: code assignment, the table of the decoder, decoding a symbol. */
module Huffman {
  import opened Bits
  import opened BitStream
  import opened Canonical

  /** Marks a table entry that is not filled in yet. */
  const UNFILLED: nat := 32767
  /** The decoder's answer on failure, (unsigned)(-1). */
  const BAD_SYMBOL: nat := 0xFFFF_FFFF

  /** Some code has the d-bit prefix v. */
  ghost predicate Live(lens: seq<nat>, d: nat, v: nat) {
    exists m: nat :: Present(lens, m) && d <= lens[m] && Prefix(lens, m, d) == v
  }

  /** The node reached from entry x of the table: its depth and the bits that lead to it. */
  function Child(paths: seq<(nat, nat)>, x: nat): (nat, nat)
    requires x < 2 * |paths|
  {
    (paths[x / 2].0 + 1, 2 * paths[x / 2].1 + x % 2)
  }

  /** Entry e stands for the path p: either the inner node of that path or the symbol coded by it. */
  predicate Filled(e: nat, lens: seq<nat>, paths: seq<(nat, nat)>, p: (nat, nat)) {
    if e >= |lens| then
      0 < e - |lens| < |paths| && paths[e - |lens|] == p
    else
      lens[e] == p.0 > 0 && CodeValue(lens, e) == p.1
  }

  /** The inner nodes have distinct paths, each of them a proper prefix of a code. */
  ghost predicate Nodes(lens: seq<nat>, paths: seq<(nat, nat)>) {
    && 0 < |paths| <= |lens|
    && paths[0] == (0, 0)
    && (forall i, j | 0 <= i < j < |paths| :: paths[i] != paths[j])
    && (forall k | 0 < k < |paths| :: Internal(lens, paths[k].0, paths[k].1))
  }

  /** The finished table realises the canonical code of lens. */
  ghost predicate Table(t: seq<nat>, lens: seq<nat>, paths: seq<(nat, nat)>) {
    && |t| == 2 * |lens|
    && Nodes(lens, paths)
    && (forall x | 0 <= x < 2 * |paths| ::
          Live(lens, Child(paths, x).0, Child(paths, x).1) ==> Filled(t[x], lens, paths, Child(paths, x)))
  }

  // ---------------------------------------------------------------- the table under construction

  /** No code inserted so far starts with p: all symbols below n, and the first i bits of n. */
  ghost predicate Free(lens: seq<nat>, n: nat, i: nat, p: (nat, nat)) {
    forall m: nat :: Present(lens, m) && p.0 <= lens[m] && (m < n || (m == n && p.0 <= i))
      ==> Prefix(lens, m, p.0) != p.1
  }

  /** Entry e, which stands for p, when symbols below n and i bits of symbol n are in the table. */
  ghost predicate Entry(e: nat, lens: seq<nat>, paths: seq<(nat, nat)>, n: nat, i: nat, p: (nat, nat)) {
    if e == UNFILLED then Free(lens, n, i, p)
    else Filled(e, lens, paths, p) && (e < |lens| ==> e < n || (e == n && i == lens[n]))
  }

  ghost predicate Entries(t: seq<nat>, lens: seq<nat>, paths: seq<(nat, nat)>, n: nat, i: nat)
    requires 2 * |paths| <= |t|
  {
    forall x | 0 <= x < 2 * |paths| :: Entry(t[x], lens, paths, n, i, Child(paths, x))
  }

  ghost predicate Blank(t: seq<nat>, from: nat) {
    forall x | from <= x < |t| :: t[x] == UNFILLED
  }

  ghost predicate AllLinked(t: seq<nat>, numnodes: nat, numcodes: nat) {
    forall k | 0 < k < numnodes :: Linked(t, k, numcodes)
  }

  /** Symbols below n and i bits of symbol n are in the table. */
  ghost predicate Partial(t: seq<nat>, lens: seq<nat>, paths: seq<(nat, nat)>, n: nat, i: nat) {
    && |t| == 2 * |lens|
    && |lens| <= 16000
    && Nodes(lens, paths)
    && Entries(t, lens, paths, n, i)
    && Blank(t, 2 * |paths|)
    && AllLinked(t, |paths|, |lens|)
  }

  /** Some entry leads to node k. */
  ghost predicate Linked(t: seq<nat>, k: nat, numcodes: nat) {
    exists x: nat :: x < |t| && t[x] == k + numcodes
  }

  lemma LinkedKept(t: seq<nat>, x: nat, v: nat, numnodes: nat, numcodes: nat)
    requires AllLinked(t, numnodes, numcodes) && x < |t| && t[x] == UNFILLED && numnodes + numcodes < UNFILLED
    ensures AllLinked(t[x := v], numnodes, numcodes)
  {
    var t' := t[x := v];
    forall k | 0 < k < numnodes ensures Linked(t', k, numcodes) {
      assert Linked(t, k, numcodes);
      var y: nat :| y < |t| && t[y] == k + numcodes;
      assert t'[y] == k + numcodes;
    }
  }

  /** The entry that leads to node k. */
  lemma EntryOf(t: seq<nat>, lens: seq<nat>, paths: seq<(nat, nat)>, n: nat, i: nat, k: nat) returns (x: nat)
    requires Partial(t, lens, paths, n, i) && 0 < k < |paths|
    ensures x < 2 * |paths| && t[x] != UNFILLED && Child(paths, x) == paths[k]
  {
    assert Linked(t, k, |lens|);
    x :| x < |t| && t[x] == k + |lens|;
    assert Entry(t[x], lens, paths, n, i, Child(paths, x));
  }

  lemma PartialStart(t: seq<nat>, lens: seq<nat>)
    requires 0 < |lens| <= 16000 && |t| == 2 * |lens| && Blank(t, 0)
    ensures Partial(t, lens, [(0, 0)], 0, 0)
  {
  }

  lemma PartialNext(t: seq<nat>, lens: seq<nat>, paths: seq<(nat, nat)>, n: nat)
    requires n < |lens| && Partial(t, lens, paths, n, lens[n])
    ensures Partial(t, lens, paths, n + 1, 0)
  {
    forall x | 0 <= x < 2 * |paths| ensures Entry(t[x], lens, paths, n + 1, 0, Child(paths, x)) {
      assert Entry(t[x], lens, paths, n, lens[n], Child(paths, x));
    }
  }

  /** The cursor stands at the node for the first i bits of the code of n. */
  ghost predicate Cursor(lens: seq<nat>, paths: seq<(nat, nat)>, n: nat, i: nat, pos: nat) {
    pos < |paths| && Present(lens, n) && i <= lens[n] && paths[pos] == (i, Prefix(lens, n, i))
  }

  /** The node below the cursor on the next bit of the code. */
  lemma CursorChild(lens: seq<nat>, paths: seq<(nat, nat)>, n: nat, i: nat, pos: nat, bit: nat)
    requires Cursor(lens, paths, n, i, pos) && i < lens[n]
    requires bit == if Code(lens, n)[i] then 1 else 0
    ensures Child(paths, 2 * pos + bit) == (i + 1, Prefix(lens, n, i + 1))
  {
    PrefixStep(lens, n, i);
    assert (2 * pos + bit) / 2 == pos && (2 * pos + bit) % 2 == bit;
  }

  /** Only the entry below the cursor can be the next prefix of n. */
  lemma FreeStep(lens: seq<nat>, paths: seq<(nat, nat)>, n: nat, i: nat, pos: nat, bit: nat, x: nat)
    requires Nodes(lens, paths) && Cursor(lens, paths, n, i, pos) && i < lens[n]
    requires bit == if Code(lens, n)[i] then 1 else 0
    requires x < 2 * |paths| && x != 2 * pos + bit && Free(lens, n, i, Child(paths, x))
    ensures Free(lens, n, i + 1, Child(paths, x))
  {
    PrefixStep(lens, n, i);
    if x / 2 == pos {
      assert x % 2 != bit;
    } else {
      assert paths[x / 2] != paths[pos];
    }
  }

  lemma FreeBelow(lens: seq<nat>, n: nat, i: nat, p: (nat, nat), b: nat)
    requires Free(lens, n, i, p) && b < 2 && i < p.0
    ensures Free(lens, n, i + 1, (p.0 + 1, 2 * p.1 + b))
  {
    forall m: nat | Present(lens, m) && p.0 + 1 <= lens[m] && (m < n || (m == n && p.0 + 1 <= i + 1))
      ensures Prefix(lens, m, p.0 + 1) != 2 * p.1 + b
    {
      PrefixStep(lens, m, p.0);
    }
  }

  /** Apart from the entry below the cursor, moving on by one bit changes nothing. */
  lemma StepAll(t: seq<nat>, lens: seq<nat>, paths: seq<(nat, nat)>, n: nat, i: nat, pos: nat, bit: nat)
    requires Partial(t, lens, paths, n, i) && Cursor(lens, paths, n, i, pos) && i < lens[n]
    requires bit == if Code(lens, n)[i] then 1 else 0
    ensures forall y | 0 <= y < 2 * |paths| && y != 2 * pos + bit ::
              Entry(t[y], lens, paths, n, i + 1, Child(paths, y))
  {
    forall y | 0 <= y < 2 * |paths| && y != 2 * pos + bit
      ensures Entry(t[y], lens, paths, n, i + 1, Child(paths, y))
    {
      assert Entry(t[y], lens, paths, n, i, Child(paths, y));
      if t[y] == UNFILLED {
        FreeStep(lens, paths, n, i, pos, bit, y);
      }
    }
  }

  /** The last bit of a code: its symbol goes into the table. */
  lemma InsertLeaf(t: seq<nat>, lens: seq<nat>, paths: seq<(nat, nat)>, n: nat, i: nat, pos: nat, bit: nat)
    requires Partial(t, lens, paths, n, i) && Cursor(lens, paths, n, i, pos) && i + 1 == lens[n]
    requires bit == if Code(lens, n)[i] then 1 else 0
    requires t[2 * pos + bit] == UNFILLED
    ensures Partial(t[2 * pos + bit := n], lens, paths, n, i + 1)
  {
    CursorChild(lens, paths, n, i, pos, bit);
    assert Shr(CodeValue(lens, n), 0) == CodeValue(lens, n);
    StepAll(t, lens, paths, n, i, pos, bit);
    LinkedKept(t, 2 * pos + bit, n, |paths|, |lens|);
  }

  /** A bit before the last one on an unfilled entry: a new inner node. */
  lemma InsertNode(t: seq<nat>, lens: seq<nat>, paths: seq<(nat, nat)>, n: nat, i: nat, pos: nat, bit: nat)
    requires Partial(t, lens, paths, n, i) && Cursor(lens, paths, n, i, pos) && i + 1 < lens[n]
    requires bit == if Code(lens, n)[i] then 1 else 0
    requires t[2 * pos + bit] == UNFILLED && |paths| < |lens|
    ensures var p := (i + 1, Prefix(lens, n, i + 1));
            Partial(t[2 * pos + bit := |paths| + |lens|], lens, paths + [p], n, i + 1)
            && Cursor(lens, paths + [p], n, i + 1, |paths|)
  {
    var x, p := 2 * pos + bit, (i + 1, Prefix(lens, n, i + 1));
    var t' := t[x := |paths| + |lens|];
    NewPath(t, lens, paths, n, i, pos, bit);
    assert Nodes(lens, paths + [p]) by {
      assert Internal(lens, p.0, p.1);
    }
    LinkedKept(t, x, |paths| + |lens|, |paths|, |lens|);
    assert t'[x] == |paths| + |lens|;
    assert Linked(t', |paths|, |lens|);
    NodeEntries(t, lens, paths, n, i, pos, bit);
  }

  /** An unfilled entry below the cursor: no node has its path yet. */
  lemma NewPath(t: seq<nat>, lens: seq<nat>, paths: seq<(nat, nat)>, n: nat, i: nat, pos: nat, bit: nat)
    requires Partial(t, lens, paths, n, i) && Cursor(lens, paths, n, i, pos) && i + 1 < lens[n]
    requires bit == if Code(lens, n)[i] then 1 else 0
    requires t[2 * pos + bit] == UNFILLED
    ensures forall k | 0 <= k < |paths| :: paths[k] != (i + 1, Prefix(lens, n, i + 1))
  {
    CursorChild(lens, paths, n, i, pos, bit);
    forall k | 0 <= k < |paths| ensures paths[k] != (i + 1, Prefix(lens, n, i + 1)) {
      if k > 0 {
        var x := EntryOf(t, lens, paths, n, i, k);
        assert paths[x / 2] == paths[pos] ==> x / 2 == pos;
        assert x / 2 == pos && x % 2 == bit ==> x == 2 * pos + bit;
      }
    }
  }

  lemma NodeEntries(t: seq<nat>, lens: seq<nat>, paths: seq<(nat, nat)>, n: nat, i: nat, pos: nat, bit: nat)
    requires Partial(t, lens, paths, n, i) && Cursor(lens, paths, n, i, pos) && i + 1 < lens[n]
    requires bit == if Code(lens, n)[i] then 1 else 0
    requires t[2 * pos + bit] == UNFILLED && |paths| < |lens|
    ensures var p := (i + 1, Prefix(lens, n, i + 1));
            Entries(t[2 * pos + bit := |paths| + |lens|], lens, paths + [p], n, i + 1)
  {
    hide AllLinked, Nodes, Code, Prefix, CodeValue;
    var x, p := 2 * pos + bit, (i + 1, Prefix(lens, n, i + 1));
    var paths', t' := paths + [p], t[x := |paths| + |lens|];
    CursorChild(lens, paths, n, i, pos, bit);
    StepAll(t, lens, paths, n, i, pos, bit);
    forall y | 0 <= y < 2 * |paths'| ensures Entry(t'[y], lens, paths', n, i + 1, Child(paths', y)) {
      if y < 2 * |paths| {
        assert Child(paths', y) == Child(paths, y);
        if y != x {
          assert Entry(t[y], lens, paths, n, i + 1, Child(paths, y));
        }
      } else {
        assert y / 2 == |paths| && t'[y] == UNFILLED && y % 2 < 2;
        assert Entry(t[x], lens, paths, n, i, p);
        FreeBelow(lens, n, i, p, y % 2);
      }
    }
  }

  /** A filled entry below the cursor leads on to the next node: codes are prefix free. */
  lemma Follow(t: seq<nat>, lens: seq<nat>, L: nat, paths: seq<(nat, nat)>, n: nat, i: nat, pos: nat, bit: nat)
    requires Bounded(lens, L) && Partial(t, lens, paths, n, i) && Cursor(lens, paths, n, i, pos) && i < lens[n]
    requires bit == if Code(lens, n)[i] then 1 else 0
    requires t[2 * pos + bit] != UNFILLED
    ensures i + 1 < lens[n] && t[2 * pos + bit] >= |lens|
    ensures Partial(t, lens, paths, n, i + 1) && Cursor(lens, paths, n, i + 1, t[2 * pos + bit] - |lens|)
  {
    hide AllLinked, Blank, Code;
    var x := 2 * pos + bit;
    var e := t[x];
    CursorChild(lens, paths, n, i, pos, bit);
    StepAll(t, lens, paths, n, i, pos, bit);
    assert Entry(e, lens, paths, n, i, Child(paths, x));
    assert Shr(CodeValue(lens, n), 0) == CodeValue(lens, n);
    if e < |lens| {
      PrefixFree(lens, L, e, n);
    } else if i + 1 == lens[n] {
      InternalNotCode(lens, L, paths[e - |lens|], n);
    }
  }

  /** The state of HuffmanTree_make2DTree within the code of symbol n. */
  ghost predicate Building(t: seq<nat>, lens: seq<nat>, paths: seq<(nat, nat)>, n: nat, i: nat, filled: nat, pos: nat) {
    && n < |lens|
    && filled + 1 == |paths|
    && Partial(t, lens, paths, n, i)
    && (if i < lens[n] then Cursor(lens, paths, n, i, pos) else pos == 0)
    && (|paths| < |lens| || (i < lens[n] && pos == filled))
  }

  lemma BuildStart(t: seq<nat>, lens: seq<nat>, L: nat, paths: seq<(nat, nat)>, n: nat, filled: nat)
    requires n < |lens| && Feasible(lens, L) && filled + 1 == |paths| < |lens| && Partial(t, lens, paths, n, 0)
    ensures Building(t, lens, paths, n, 0, filled, 0)
  {
    if lens[n] > 0 {
      PrefixEnds(lens, L, n);
    }
  }

  lemma BuildEnd(t: seq<nat>, lens: seq<nat>, paths: seq<(nat, nat)>, n: nat, filled: nat, pos: nat)
    requires n < |lens| && Building(t, lens, paths, n, lens[n], filled, pos)
    ensures pos == 0 && filled + 1 == |paths| < |lens| && Partial(t, lens, paths, n + 1, 0)
  {
    PartialNext(t, lens, paths, n);
  }

  /** The cursor of a roomy code never leaves the room for the nodes. */
  lemma BuildRoom(t: seq<nat>, lens: seq<nat>, L: nat, paths: seq<(nat, nat)>, n: nat, i: nat, filled: nat, pos: nat)
    requires Roomy(lens, L) && Building(t, lens, paths, n, i, filled, pos) && i < lens[n]
    ensures pos + 2 <= |lens|
  {
    RoomLeft(lens, L, paths, n);
  }

  lemma BuildLeaf(t: seq<nat>, lens: seq<nat>, paths: seq<(nat, nat)>, n: nat, i: nat, filled: nat, pos: nat, bit: nat)
    requires Building(t, lens, paths, n, i, filled, pos) && i + 1 == lens[n] && pos + 2 <= |lens|
    requires bit == if Code(lens, n)[i] then 1 else 0
    requires t[2 * pos + bit] == UNFILLED
    ensures Building(t[2 * pos + bit := n], lens, paths, n, i + 1, filled, 0)
  {
    InsertLeaf(t, lens, paths, n, i, pos, bit);
  }

  lemma BuildNode(t: seq<nat>, lens: seq<nat>, paths: seq<(nat, nat)>, n: nat, i: nat, filled: nat, pos: nat, bit: nat)
    requires Building(t, lens, paths, n, i, filled, pos) && i + 1 < lens[n] && pos + 2 <= |lens|
    requires bit == if Code(lens, n)[i] then 1 else 0
    requires t[2 * pos + bit] == UNFILLED
    ensures Building(t[2 * pos + bit := filled + 1 + |lens|], lens, paths + [(i + 1, Prefix(lens, n, i + 1))],
                     n, i + 1, filled + 1, filled + 1)
    ensures filled + 1 < 0x1_0000_0000
  {
    InsertNode(t, lens, paths, n, i, pos, bit);
  }

  lemma BuildFollow(t: seq<nat>, lens: seq<nat>, L: nat, paths: seq<(nat, nat)>, n: nat, i: nat, filled: nat, pos: nat,
                    bit: nat)
    requires Bounded(lens, L) && Building(t, lens, paths, n, i, filled, pos) && i < lens[n] && pos + 2 <= |lens|
    requires bit == if Code(lens, n)[i] then 1 else 0
    requires t[2 * pos + bit] != UNFILLED
    ensures |lens| <= t[2 * pos + bit] < 0x1_0000_0000
    ensures Building(t, lens, paths, n, i + 1, filled, t[2 * pos + bit] - |lens|)
  {
    Follow(t, lens, L, paths, n, i, pos, bit);
  }

  lemma InternalNotCode(lens: seq<nat>, L: nat, p: (nat, nat), n: nat)
    requires Bounded(lens, L) && Present(lens, n) && Internal(lens, p.0, p.1)
    ensures p != (lens[n], CodeValue(lens, n))
  {
    var m: nat :| Present(lens, m) && p.0 < lens[m] && Prefix(lens, m, p.0) == p.1;
    if p == (lens[n], CodeValue(lens, n)) {
      PrefixFree(lens, L, n, m);
    }
  }

  lemma PartialToTable(t: seq<nat>, lens: seq<nat>, paths: seq<(nat, nat)>, u: seq<nat>)
    requires Partial(t, lens, paths, |lens|, 0)
    requires |u| == |t| && forall x | 0 <= x < |t| :: u[x] == if t[x] == UNFILLED then 0 else t[x]
    ensures Table(u, lens, paths)
  {
    forall x | 0 <= x < 2 * |paths| && Live(lens, Child(paths, x).0, Child(paths, x).1)
      ensures Filled(u[x], lens, paths, Child(paths, x))
    {
      assert Entry(t[x], lens, paths, |lens|, 0, Child(paths, x));
    }
  }

  /** The nodes so far are fewer than the symbols. */
  lemma RoomLeft(lens: seq<nat>, L: nat, paths: seq<(nat, nat)>, n: nat)
    requires Roomy(lens, L) && Nodes(lens, paths) && Present(lens, n)
    ensures |paths| < |lens|
  {
    PrefixEnds(lens, L, n);
    assert Internal(lens, 0, 0);
    assert InnerNodes(lens, paths);
  }

  /** When all symbols are in the table, so is every internal node of the code. */
  lemma {:induction false} NodeFound(t: seq<nat>, lens: seq<nat>, L: nat, paths: seq<(nat, nat)>, d: nat, v: nat)
    requires Feasible(lens, L) && Partial(t, lens, paths, |lens|, 0) && Internal(lens, d, v)
    ensures (d, v) in paths
    decreases d
  {
    hide Partial, Nodes, Internal, Feasible;
    var m := InternalSymbol(lens, d, v);
    if d == 0 {
      PrefixEnds(lens, L, m);
      RootFound(t, lens, paths);
    } else {
      ParentOf(lens, m, d);
      NodeFound(t, lens, L, paths, d - 1, v / 2);
      var k: nat :| k < |paths| && paths[k] == (d - 1, v / 2);
      assert (2 * k + v % 2) / 2 == k;
      ChildFound(t, lens, L, paths, 2 * k + v % 2, m, (d, v));
    }
  }

  lemma InternalSymbol(lens: seq<nat>, d: nat, v: nat) returns (m: nat)
    requires Internal(lens, d, v)
    ensures Present(lens, m) && d < lens[m] && Prefix(lens, m, d) == v
  {
    m :| Present(lens, m) && d < lens[m] && Prefix(lens, m, d) == v;
  }

  lemma ParentOf(lens: seq<nat>, m: nat, d: nat)
    requires Present(lens, m) && 0 < d < lens[m]
    ensures Internal(lens, d - 1, Prefix(lens, m, d) / 2)
  {
    PrefixStep(lens, m, d - 1);
    assert Prefix(lens, m, d) / 2 == Prefix(lens, m, d - 1);
  }

  lemma RootFound(t: seq<nat>, lens: seq<nat>, paths: seq<(nat, nat)>)
    requires Partial(t, lens, paths, |lens|, 0)
    ensures (0, 0) in paths
  {
    assert paths[0] == (0, 0);
  }

  lemma ChildFound(t: seq<nat>, lens: seq<nat>, L: nat, paths: seq<(nat, nat)>, x: nat, m: nat, p: (nat, nat))
    requires Feasible(lens, L) && Partial(t, lens, paths, |lens|, 0) && x < 2 * |paths| && Child(paths, x) == p
    requires Present(lens, m) && p.0 < lens[m] && Prefix(lens, m, p.0) == p.1
    ensures p in paths
  {
    assert Entry(t[x], lens, paths, |lens|, 0, p);
    if t[x] < |lens| && t[x] != UNFILLED {
      PrefixFree(lens, L, t[x], m);
    } else {
      assert t[x] != UNFILLED;
      assert paths[t[x] - |lens|] == p;
    }
  }

  /** A table that was filled without running out of room has room for all nodes. */
  lemma RoomForAll(t: seq<nat>, lens: seq<nat>, L: nat, paths: seq<(nat, nat)>)
    requires Feasible(lens, L) && Partial(t, lens, paths, |lens|, 0) && |paths| < |lens|
    ensures Roomy(lens, L)
  {
    forall nodes: seq<(nat, nat)> | InnerNodes(lens, nodes) ensures |nodes| < |lens| {
      forall i | 0 <= i < |nodes| ensures nodes[i] in paths {
        NodeFound(t, lens, L, paths, nodes[i].0, nodes[i].1);
      }
      SeqSet(paths);
      Pigeonhole(nodes, set p | p in paths);
    }
  }

  lemma {:induction false} SeqSet<T>(s: seq<T>)
    ensures |set x | x in s| <= |s|
  {
    if s != [] {
      var front := s[..|s| - 1];
      SeqSet(front);
      assert (set x | x in s) == (set x | x in front) + {s[|s| - 1]};
    }
  }

  // ---------------------------------------------------------------- the structure

  /** The first code of length l as it is computed, with the absent symbols counted. */
  function Offset(lens: seq<nat>, l: nat): nat {
    First(lens, l) + Count(lens, 0) * Pow2(l)
  }

  lemma OffsetStep(lens: seq<nat>, l: nat)
    requires l > 0
    ensures Offset(lens, l) == 2 * ((if l == 1 then 0 else Offset(lens, l - 1)) + Count(lens, l - 1))
  {
    Pow2Twice(Count(lens, 0), l - 1);
    if l == 1 { assert Pow2(0) == 1; }
  }

  /** The excess does not show in the bits of the code. */
  lemma OffsetCode(lens: seq<nat>, n: nat)
    requires n < |lens|
    ensures Msb(Offset(lens, lens[n]) + Rank(lens, n), lens[n]) == Code(lens, n)
  {
    MsbLow(CodeValue(lens, n), lens[n], Count(lens, 0));
  }

  /** An unsigned 32-bit difference. */
  function Sub32(a: nat, b: nat): nat
    requires a < 0x1_0000_0000 && b < 0x1_0000_0000
  {
    if a >= b then a - b else a - b + 0x1_0000_0000
  }

  class HuffmanTree {
    var tree2d: array<nat>
    var tree1d: array<nat>
    var lengths: array<nat>
    var maxbitlen: nat
    var numcodes: nat
    /** The paths of the inner nodes in tree2d. */
    ghost var paths: seq<(nat, nat)>

    /** HuffmanTree_init */
    constructor ()
      ensures fresh(tree2d) && fresh(tree1d) && fresh(lengths)
    {
      tree2d, tree1d, lengths := new nat[0], new nat[0], new nat[0];
      maxbitlen, numcodes, paths := 0, 0, [];
    }

    /** Encoder side: tree1d holds, in its low bits, the canonical codes of lens. */
    ghost predicate Encodes(lens: seq<nat>)
      reads this, tree1d, lengths
    {
      && numcodes == |lens| == tree1d.Length
      && lengths[..] == lens
      && forall n: nat | Present(lens, n) :: Msb(tree1d[n], lens[n]) == Code(lens, n)
    }

    /** Decoder side: walking tree2d along the code of a symbol ends at that symbol. */
    ghost predicate Decodes(lens: seq<nat>)
      reads this, tree2d
    {
      && numcodes == |lens|
      && Table(tree2d[..], lens, paths)
    }

    /** HuffmanTree_makeFromLengths */
    method MakeFromLengths(bitlen: seq<nat>, maxbitlen: nat) returns (error: nat)
      requires 2 <= |bitlen| <= 16000 && Bounded(bitlen, maxbitlen)
      modifies this
      ensures Encodes(bitlen) && fresh(lengths) && fresh(tree1d) && fresh(tree2d)
      ensures numcodes == |bitlen| && (error == 0 ==> tree2d.Length == 2 * numcodes)
      ensures error == 0 || error == 55
      ensures Feasible(bitlen, maxbitlen) && error == 0 ==> Decodes(bitlen)
      ensures Feasible(bitlen, maxbitlen) ==> (error == 0 <==> Roomy(bitlen, maxbitlen))
    {
      var copy := new nat[|bitlen|];
      for i := 0 to |bitlen|
        invariant copy[..i] == bitlen[..i]
      {
        copy[i] := bitlen[i];
      }
      lengths := copy;
      numcodes, this.maxbitlen := |bitlen|, maxbitlen;
      assert lengths[..] == bitlen;
      error := MakeFromLengths2(bitlen);
    }

    /** HuffmanTree_makeFromLengths2: numcodes, lengths and maxbitlen are filled in. */
    method MakeFromLengths2(ghost lens: seq<nat>) returns (error: nat)
      requires 2 <= |lens| <= 16000 && Bounded(lens, maxbitlen)
      requires lengths[..] == lens && numcodes == |lens|
      modifies this`tree1d, this`tree2d, this`paths
      ensures Encodes(lens) && fresh(tree1d) && fresh(tree2d)
      ensures error == 0 ==> tree2d.Length == 2 * numcodes
      ensures error == 0 || error == 55
      ensures Feasible(lens, maxbitlen) && error == 0 ==> Decodes(lens)
      ensures Feasible(lens, maxbitlen) ==> (error == 0 <==> Roomy(lens, maxbitlen))
    {
      var nextcode := FirstCodes(lens);
      var codes := AssignCodes(lens, nextcode);
      tree1d := codes;
      error := Make2DTree(lens);
    }

    /**
     * Steps 1 and 2. The absent symbols are counted too, so that every first code of length l is
     * too large by a multiple of 2^l.
     */
    method FirstCodes(ghost lens: seq<nat>) returns (nextcode: array<nat>)
      requires Bounded(lens, maxbitlen) && lengths[..] == lens && numcodes == |lens|
      ensures fresh(nextcode) && nextcode.Length == maxbitlen + 1
      ensures forall l | 1 <= l <= maxbitlen ::
                nextcode[l] == Offset(lens, l)
    {
      var blcount := new nat[maxbitlen + 1](_ => 0);
      for bits := 0 to numcodes
        invariant forall l | 0 <= l <= maxbitlen :: blcount[l] == Count(lens[..bits], l)
      {
        assert lens[..bits + 1][..bits] == lens[..bits];
        assert lengths[bits] == lens[bits];
        blcount[lengths[bits]] := blcount[lengths[bits]] + 1;
      }
      assert lens[..numcodes] == lens;
      nextcode := new nat[maxbitlen + 1](_ => 0);
      for bits := 1 to maxbitlen + 1
        invariant nextcode[0] == 0
        invariant forall l | 0 <= l <= maxbitlen :: blcount[l] == Count(lens, l)
        invariant forall l | 1 <= l < bits :: nextcode[l] == Offset(lens, l)
      {
        nextcode[bits] := (nextcode[bits - 1] + blcount[bits - 1]) * 2;
        OffsetStep(lens, bits);
      }
    }

    /** Step 3: codes of equal length are consecutive, in the order of the symbols. */
    method AssignCodes(ghost lens: seq<nat>, nextcode: array<nat>) returns (codes: array<nat>)
      requires Bounded(lens, maxbitlen) && lengths[..] == lens && numcodes == |lens|
      requires nextcode.Length == maxbitlen + 1 && nextcode != lengths
      requires forall l | 1 <= l <= maxbitlen ::
                 nextcode[l] == Offset(lens, l)
      modifies nextcode
      ensures fresh(codes) && codes.Length == numcodes
      ensures forall n: nat | Present(lens, n) :: Msb(codes[n], lens[n]) == Code(lens, n)
    {
      codes := new nat[numcodes];
      for n := 0 to numcodes
        invariant forall l | 1 <= l <= maxbitlen ::
          nextcode[l] == Offset(lens, l) + Count(lens[..n], l)
        invariant forall m: nat | m < n && Present(lens, m) :: Msb(codes[m], lens[m]) == Code(lens, m)
      {
        assert lens[..n + 1][..n] == lens[..n];
        var l := lengths[n];
        assert l == lens[n];
        if l != 0 {
          codes[n] := nextcode[l];
          nextcode[l] := nextcode[l] + 1;
          OffsetCode(lens, n);
        }
      }
    }

    /** HuffmanTree_make2DTree */
    method Make2DTree(ghost lens: seq<nat>) returns (error: nat)
      requires 2 <= |lens| <= 16000 && Bounded(lens, maxbitlen) && Encodes(lens)
      modifies this`tree2d, this`paths
      ensures fresh(tree2d)
      ensures error == 0 || error == 55
      ensures error == 0 ==> tree2d.Length == 2 * numcodes
      ensures Feasible(lens, maxbitlen) && error == 0 ==> Decodes(lens)
      ensures Feasible(lens, maxbitlen) ==> (error == 0 <==> Roomy(lens, maxbitlen))
    {
      hide Table, Roomy, Partial, Feasible;
      ghost var L := maxbitlen;
      ghost var ok := Feasible(lens, L);
      var nodefilled: nat, treepos: nat := 0, 0;
      var t := new nat[numcodes * 2](_ => UNFILLED);
      tree2d, paths := t, [(0, 0)];
      PartialStart(t[..], lens);
      for n := 0 to numcodes
        invariant Encodes(lens) && tree2d == t && t.Length == 2 * |lens|
        invariant treepos < 0x1_0000_0000
        invariant ok ==> treepos == 0 && nodefilled + 1 == |paths| < |lens| && Partial(t[..], lens, paths, n, 0)
      {
        error, nodefilled, treepos, paths :=
          InsertCode(t, numcodes, tree1d[n], lengths[n], n, nodefilled, treepos, lens, maxbitlen, paths);
        if error != 0 { return; }
      }
      ghost var before := t[..];
      for n := 0 to numcodes * 2
        modifies t
        invariant tree2d == t && t.Length == 2 * |lens|
        invariant forall x | 0 <= x < n :: t[x] == if before[x] == UNFILLED then 0 else before[x]
        invariant forall x | n <= x < t.Length :: t[x] == before[x]
      {
        if t[n] == UNFILLED { t[n] := 0; }
      }
      if ok {
        RoomForAll(before, lens, L, paths);
        PartialToTable(before, lens, paths, t[..]);
      }
      error := 0;
    }

    /** The inner loop of HuffmanTree_make2DTree: the bits of the code of symbol n, highest first. */
    static method InsertCode(t: array<nat>, numcodes: nat, code: nat, length: nat, n: nat, filled: nat, pos: nat,
                             ghost lens: seq<nat>, ghost L: nat, ghost before: seq<(nat, nat)>)
      returns (error: nat, nodefilled: nat, treepos: nat, ghost paths: seq<(nat, nat)>)
      requires 2 <= numcodes == |lens| <= 16000 && Bounded(lens, L) && t.Length == 2 * numcodes
      requires n < |lens| && length == lens[n] && (length > 0 ==> Msb(code, length) == Code(lens, n))
      requires pos < 0x1_0000_0000
      requires Feasible(lens, L) ==>
                 pos == 0 && filled + 1 == |before| < |lens| && Partial(t[..], lens, before, n, 0)
      modifies t
      ensures (error == 0 || error == 55) && treepos < 0x1_0000_0000
      ensures Roomy(lens, L) ==> error == 0
      ensures Feasible(lens, L) && error == 0 ==>
                treepos == 0 && nodefilled + 1 == |paths| < |lens| && Partial(t[..], lens, paths, n + 1, 0)
    {
      hide Building, Partial;
      ghost var ok := Feasible(lens, L);
      nodefilled, treepos, error, paths := filled, pos, 0, before;
      if ok { BuildStart(t[..], lens, L, paths, n, filled); }
      for i := 0 to length
        invariant treepos < 0x1_0000_0000
        invariant ok ==> Building(t[..], lens, paths, n, i, nodefilled, treepos)
      {
        var bit := Shr(code, length - i - 1) % 2;
        MsbAt(code, length, i);
        if treepos > numcodes - 2 {
          if Roomy(lens, L) {
            BuildRoom(t[..], lens, L, paths, n, i, nodefilled, treepos);
          }
          error := 55;
          return;
        }
        ghost var s: seq<nat> := t[..];
        var x := 2 * treepos + bit;
        if t[x] == UNFILLED {
          if i + 1 == length {
            if ok { BuildLeaf(s, lens, paths, n, i, nodefilled, treepos, bit); }
            t[x] := n;
            assert t[..] == s[x := n];
            treepos := 0;
          } else {
            if ok { BuildNode(s, lens, paths, n, i, nodefilled, treepos, bit); }
            nodefilled := nodefilled + 1;
            var address: nat := nodefilled + numcodes;
            t[x] := address;
            assert t[..] == s[x := address];
            treepos := nodefilled % 0x1_0000_0000;
            paths := paths + [(i + 1, Prefix(lens, n, i + 1))];
          }
        } else {
          if ok { BuildFollow(s, lens, L, paths, n, i, nodefilled, treepos, bit); }
          treepos := Sub32(t[x] % 0x1_0000_0000, numcodes);
        }
      }
      if ok { BuildEnd(t[..], lens, paths, n, nodefilled, treepos); }
    }

    /** HuffmanTree_getCode */
    function GetCode(index: nat): nat
      requires index < tree1d.Length
      reads this, tree1d
    {
      tree1d[index]
    }

    /** HuffmanTree_getLength */
    function GetLength(index: nat): nat
      requires index < lengths.Length
      reads this, lengths
    {
      lengths[index]
    }

    /** huffmanDecodeSymbol. If the code of sym stands at the bit pointer, sym is the answer. */
    method DecodeSymbol(data: seq<byte>, bp: nat, ghost lens: seq<nat>, ghost L: nat, ghost sym: nat)
      returns (ct: nat, next: nat)
      requires tree2d.Length == 2 * numcodes && 0 < numcodes <= 16000
      ensures ct < numcodes || ct == BAD_SYMBOL
      ensures bp <= next && (ct != BAD_SYMBOL ==> bp < next <= 8 * |data|)
      ensures Decodes(lens) && Feasible(lens, L) && Present(lens, sym) && At(BitsOf(data), bp, Code(lens, sym)) ==>
                ct == sym && next == bp + lens[sym]
    {
      hide Table, Feasible, Code, BitsOf, At, Descending;
      ghost var ok := Decodes(lens) && Feasible(lens, L) && Present(lens, sym) && At(BitsOf(data), bp, Code(lens, sym));
      var treepos: nat := 0;
      next := bp;
      if ok { DescendStart(data, bp, tree2d[..], lens, L, paths, sym); }
      while true
        invariant bp <= next && treepos < numcodes
        invariant ok ==> Descending(data, bp, next, tree2d[..], lens, L, paths, sym, treepos)
        decreases 8 * |data| - next
      {
        if ok { DescendStep(data, bp, next, tree2d[..], lens, L, paths, sym, treepos); }
        if next >= 8 * |data| {
          return BAD_SYMBOL, next;
        }
        var bit := ReadBit(data, next);
        ct := tree2d[2 * treepos + bit];
        next := next + 1;
        if ct < numcodes {
          return;
        } else {
          treepos := ct - numcodes;
        }
        if treepos >= numcodes {
          return BAD_SYMBOL, next;
        }
      }
    }
  }

  /** On the way down to a symbol whose code stands at bit bp. */
  ghost predicate Descending(data: seq<byte>, bp: nat, next: nat, t: seq<nat>, lens: seq<nat>, L: nat,
                             paths: seq<(nat, nat)>, sym: nat, treepos: nat) {
    && Feasible(lens, L) && Table(t, lens, paths) && Present(lens, sym) && At(BitsOf(data), bp, Code(lens, sym))
    && bp <= next < bp + lens[sym] && Cursor(lens, paths, sym, next - bp, treepos)
  }

  lemma DescendStart(data: seq<byte>, bp: nat, t: seq<nat>, lens: seq<nat>, L: nat, paths: seq<(nat, nat)>, sym: nat)
    requires Feasible(lens, L) && Table(t, lens, paths) && Present(lens, sym) && At(BitsOf(data), bp, Code(lens, sym))
    ensures Descending(data, bp, bp, t, lens, L, paths, sym, 0)
  {
    hide BitsOf, At;
    PrefixEnds(lens, L, sym);
  }

  lemma DescendStep(data: seq<byte>, bp: nat, next: nat, t: seq<nat>, lens: seq<nat>, L: nat, paths: seq<(nat, nat)>,
                    sym: nat, treepos: nat)
    requires Descending(data, bp, next, t, lens, L, paths, sym, treepos) && |t| == 2 * |lens|
    ensures next < 8 * |data| && treepos < |lens| && sym < |lens|
    ensures var e := t[2 * treepos + ReadBit(data, next)];
            if next + 1 == bp + lens[sym] then e == sym
            else |lens| <= e < 2 * |lens| && Descending(data, bp, next + 1, t, lens, L, paths, sym, e - |lens|)
  {
    hide Table, Feasible, Code;
    assert BitsOf(data)[bp..bp + lens[sym]][next - bp] == Code(lens, sym)[next - bp];
    CursorInside(t, lens, paths, sym, next - bp, treepos);
    WalkStep(t, lens, L, paths, sym, next - bp, treepos, ReadBit(data, next));
    if next + 1 < bp + lens[sym] {
      CursorInside(t, lens, paths, sym, next + 1 - bp, t[2 * treepos + ReadBit(data, next)] - |lens|);
    }
  }

  lemma CursorInside(t: seq<nat>, lens: seq<nat>, paths: seq<(nat, nat)>, n: nat, i: nat, pos: nat)
    requires Table(t, lens, paths) && Cursor(lens, paths, n, i, pos)
    ensures 2 * pos + 1 < |t| && n < |lens|
  {
  }

  /** One step down the finished table: at the last bit the symbol, before that an inner node. */
  lemma WalkStep(t: seq<nat>, lens: seq<nat>, L: nat, paths: seq<(nat, nat)>, n: nat, i: nat, pos: nat, bit: nat)
    requires Feasible(lens, L) && Table(t, lens, paths) && Cursor(lens, paths, n, i, pos) && i < lens[n]
    requires bit == if Code(lens, n)[i] then 1 else 0
    ensures if i + 1 == lens[n] then t[2 * pos + bit] == n
            else t[2 * pos + bit] >= |lens| && Cursor(lens, paths, n, i + 1, t[2 * pos + bit] - |lens|)
  {
    var x := 2 * pos + bit;
    var e := t[x];
    CursorChild(lens, paths, n, i, pos, bit);
    assert Live(lens, i + 1, Prefix(lens, n, i + 1));
    assert Filled(e, lens, paths, Child(paths, x));
    assert Shr(CodeValue(lens, n), 0) == CodeValue(lens, n);
    if e < |lens| {
      PrefixFree(lens, L, e, n);
    } else if i + 1 == lens[n] {
      InternalNotCode(lens, L, paths[e - |lens|], n);
    }
  }
}
