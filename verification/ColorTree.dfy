/** The tree that finds the palette index of a colour by the bits of its channels. */
module ColorTree {
  import opened Bits

  datatype Color = Color(r: byte, g: byte, b: byte, a: byte)

  function One(bit: bool): nat {
    if bit then 1 else 0
  }

  /** Which of the 16 children the walk takes at a level. */
  function Child(c: Color, bit: nat): (i: nat)
    ensures i < 16
  {
    8 * One(ByteBit(c.r, bit)) + 4 * One(ByteBit(c.g, bit)) + 2 * One(ByteBit(c.b, bit)) + One(ByteBit(c.a, bit))
  }

  /** The first n steps of the walk to a colour. */
  function Path(c: Color, n: nat): (p: seq<nat>)
    ensures |p| == n
  {
    if n == 0 then [] else Path(c, n - 1) + [Child(c, n - 1)]
  }

  lemma {:induction false} PathAt(c: Color, n: nat, k: nat)
    requires k < n
    ensures Path(c, n)[k] == Child(c, k) && Path(c, n)[..k] == Path(c, k)
  {
    if k < n - 1 {
      PathAt(c, n - 1, k);
      assert Path(c, n)[..k] == Path(c, n - 1)[..k];
    } else {
      assert Path(c, n)[..k] == Path(c, k);
    }
  }

  /** Different colours end at different leaves. */
  lemma PathInjective(c: Color, d: Color)
    requires Path(c, 8) == Path(d, 8)
    ensures c == d
  {
    hide Path, ByteBit;
    forall k | 0 <= k < 8
      ensures ByteBit(c.r, k) == ByteBit(d.r, k) && ByteBit(c.g, k) == ByteBit(d.g, k)
              && ByteBit(c.b, k) == ByteBit(d.b, k) && ByteBit(c.a, k) == ByteBit(d.a, k)
    {
      PathAt(c, 8, k);
      PathAt(d, 8, k);
      assert Child(c, k) == Child(d, k);
    }
    ByteBitsInjective(c.r, d.r);
    ByteBitsInjective(c.g, d.g);
    ByteBitsInjective(c.b, d.b);
    ByteBitsInjective(c.a, d.a);
  }

  class Node {
    var children: seq<Node?>
    var index: int

    /** color_tree_init */
    constructor ()
      ensures children == seq(16, i => null) && index == -1
    {
      children, index := seq(16, i => null), -1;
    }
  }

  /** A tree of eight levels; `nodes` tells which node each walk from the root ends at. */
  class ColorTree {
    const root: Node
    ghost var nodes: map<seq<nat>, Node>

    /** The nodes that exist are linked to each other as their walks say, and to nothing else. */
    ghost predicate Valid()
      reads this, nodes.Values
    {
      && [] in nodes && nodes[[]] == root
      && (forall p {:trigger Linked(p)} | p in nodes :: Linked(p))
      && Separate()
    }

    /** A node other than the root hangs below the one that its walk passes last. */
    ghost predicate Linked(p: seq<nat>)
      requires p in nodes
      reads this, nodes.Values
    {
      && |nodes[p].children| == 16
      && (p != [] ==> p[..|p| - 1] in nodes)
      && forall i | 0 <= i < 16 :: nodes[p].children[i] == if p + [i] in nodes then nodes[p + [i]] else null
    }

    ghost predicate Separate()
      reads this
    {
      forall p, q | p in nodes && q in nodes && nodes[p] == nodes[q] :: p == q
    }

    /** The index at the end of a walk, or -1. */
    ghost function Index(p: seq<nat>): int
      reads this, nodes.Values
    {
      if p in nodes then nodes[p].index else -1
    }

    /** The index that belongs to a colour, or -1. */
    ghost function Lookup(c: Color): int
      reads this, nodes.Values
    {
      Index(Path(c, 8))
    }

    constructor ()
      ensures Valid() && forall p | p in nodes :: fresh(nodes[p])
      ensures forall c :: Lookup(c) == -1
    {
      root := new Node();
      new;
      nodes := map[[] := root];
    }

    /** color_tree_get: -1 if the colour is not there */
    method Get(c: Color) returns (index: int)
      requires Valid()
      ensures index == Lookup(c)
    {
      hide ByteBit, Child, Separate;
      var tree := root;
      for bit := 0 to 8
        invariant Path(c, bit) in nodes && tree == nodes[Path(c, bit)]
      {
        var i := Child(c, bit);
        assert Linked(Path(c, bit));
        assert Path(c, bit) + [i] == Path(c, bit + 1);
        if tree.children[i] == null {
          NotThere(c, bit + 1);
          return -1;
        }
        tree := tree.children[i];
      }
      return tree.index;
    }

    /** Without a node on the way, the leaf is missing as well. */
    lemma {:induction false} NotThere(c: Color, n: nat)
      requires Valid() && n <= 8 && Path(c, n) !in nodes
      ensures Path(c, 8) !in nodes
      decreases 8 - n
    {
      hide Child, Separate;
      if n < 8 {
        assert Path(c, n + 1)[..n] == Path(c, n);
        assert Path(c, n + 1) in nodes ==> Linked(Path(c, n + 1));
        NotThere(c, n + 1);
      }
    }

    lemma OnlyHere(at: seq<nat>)
      requires Separate() && at in nodes
      ensures forall p | p in nodes && p != at :: nodes[p] != nodes[at]
    {
    }

    /** One level of color_tree_add: the child is made if it is not there yet. */
    method Descend(tree: Node, ghost at: seq<nat>, i: nat) returns (child: Node)
      requires Valid() && at in nodes && tree == nodes[at] && i < 16
      modifies this`nodes, tree`children
      ensures Valid() && at + [i] in nodes && child == nodes[at + [i]]
      ensures nodes == old(nodes)[at + [i] := child] && forall p :: Index(p) == old(Index(p))
      ensures child in old(nodes.Values) || fresh(child)
    {
      hide Separate;
      assert Linked(at);
      OnlyHere(at);
      if tree.children[i] == null {
        child := new Node();
        tree.children := tree.children[i := child];
        nodes := nodes[at + [i] := child];
        Grown(this, at, i, child);
      } else {
        child := tree.children[i];
        assert nodes == nodes[at + [i] := child];
      }
    }

    /** color_tree_add */
    method Add(c: Color, index: int)
      requires Valid()
      modifies this`nodes, nodes.Values
      ensures Valid() && forall p | p in nodes :: nodes[p] in old(nodes.Values) || fresh(nodes[p])
      ensures Lookup(c) == index
      ensures forall d | d != c :: Lookup(d) == old(Lookup(d))
    {
      hide ByteBit, Child, Valid, Index, Path;
      var tree := root;
      AtRoot(c);
      for bit := 0 to 8
        invariant Valid() && Path(c, bit) in nodes && tree == nodes[Path(c, bit)]
        invariant forall p | p in nodes :: nodes[p] in old(nodes.Values) || fresh(nodes[p])
        invariant forall p :: Index(p) == old(Index(p))
      {
        NextStep(c, bit);
        tree := Descend(tree, Path(c, bit), Child(c, bit));
      }
      label walked:
      tree.index := index;
      Relabelled@walked(this, Path(c, 8));
      forall d | d != c ensures Lookup(d) == old(Lookup(d)) {
        if Path(d, 8) == Path(c, 8) { PathInjective(c, d); }
        assert Index(Path(d, 8)) == old(Index(Path(d, 8)));
      }
    }

    lemma AtRoot(c: Color)
      requires Valid()
      ensures Path(c, 0) in nodes && nodes[Path(c, 0)] == root
    {
    }
  }

  lemma NextStep(c: Color, n: nat)
    ensures Path(c, n + 1) == Path(c, n) + [Child(c, n)]
  {
  }

  /** Another index at one node leaves the tree and all other indices as they are. */
  twostate lemma Relabelled(t: ColorTree, new at: seq<nat>)
    requires old(t.Valid()) && at in t.nodes && t.nodes == old(t.nodes)
    requires forall p | p in t.nodes :: t.nodes[p].children == old(t.nodes[p].children)
    requires forall p | p in t.nodes && t.nodes[p] != t.nodes[at] :: t.nodes[p].index == old(t.nodes[p].index)
    ensures t.Valid() && t.Index(at) == t.nodes[at].index
    ensures forall p | p != at :: t.Index(p) == old(t.Index(p))
  {
    forall p | p in t.nodes ensures t.Linked(p) {
      assert old(t.Linked(p));
    }
  }

  lemma SameStep(p: seq<nat>, i: nat, q: seq<nat>, j: nat)
    requires p + [i] == q + [j]
    ensures p == q && i == j
  {
    assert (p + [i])[..|p|] == p && (q + [j])[..|q|] == q;
  }

  /** A new leaf below node `at` leaves a tree. */
  twostate lemma Grown(t: ColorTree, new at: seq<nat>, new i: nat, new child: Node)
    requires old(t.Valid()) && at in old(t.nodes) && i < 16 && at + [i] !in old(t.nodes) && fresh(child)
    requires t.nodes == old(t.nodes)[at + [i] := child] && child.children == seq(16, j => null)
    requires |old(t.nodes[at].children)| == 16
    requires forall p | p in old(t.nodes) ::
               old(t.nodes)[p].children ==
               if p == at then old(t.nodes[at].children)[i := child] else old(t.nodes[p].children)
    requires t.nodes[[]] == t.root
    ensures t.Valid()
  {
    var to := at + [i];
    forall p | p in t.nodes ensures t.Linked(p) {
      if p == to {
        LeafLinked(t, at, i, child);
      } else {
        assert old(t.Linked(p));
        forall j | 0 <= j < 16 && p + [j] == to ensures p == at && j == i { SameStep(p, j, at, i); }
      }
    }
    StillSeparate(t, at, i, child);
  }

  twostate lemma StillSeparate(t: ColorTree, new at: seq<nat>, new i: nat, new child: Node)
    requires old(t.Separate()) && fresh(child) && t.nodes == old(t.nodes)[at + [i] := child]
    ensures t.Separate()
  {
  }

  twostate lemma LeafLinked(t: ColorTree, new at: seq<nat>, new i: nat, new child: Node)
    requires old(t.Valid()) && at in old(t.nodes) && i < 16 && at + [i] !in old(t.nodes)
    requires t.nodes == old(t.nodes)[at + [i] := child] && child.children == seq(16, j => null)
    ensures t.Linked(at + [i])
  {
    var to := at + [i];
    assert to[..|to| - 1] == at;
    forall j | 0 <= j < 16 ensures to + [j] !in t.nodes {
      assert (to + [j])[..|to + [j]| - 1] == to;
      assert to + [j] in old(t.nodes) ==> old(t.Linked(to + [j]));
    }
  }
}
