/** The doubly linked list of the base station, with its links as they really are. */
module LinkedList {

  class Item<T> {
    var data: T
    var next: Item?<T>
    var prev: Item?<T>

    /** alloc_item, with the data that every caller then stores */
    constructor (data: T)
      ensures this.data == data && next == null && prev == null
    {
      this.data, next, prev := data, null, null;
    }
  }

  ghost predicate Distinct<T>(s: seq<Item<T>>) {
    forall i, j | 0 <= i < j < |s| :: s[i] != s[j]
  }

  lemma DistinctIndex<T>(s: seq<Item<T>>, i: nat, j: nat)
    requires Distinct(s) && i < |s| && j < |s| && s[i] == s[j]
    ensures i == j
  {
  }

  /** The elements after x has been put in at position k. */
  lemma Spliced<T>(s: seq<T>, k: nat, x: T, t: seq<T>)
    requires k <= |s| && t == s[..k] + [x] + s[k..]
    ensures |t| == |s| + 1 && t[k] == x
    ensures forall i | 0 <= i < k :: t[i] == s[i]
    ensures forall i | k < i < |t| :: t[i] == s[i - 1]
  {
  }

  /** Putting one item into a chain. */
  lemma Splice<T>(s: seq<Item<T>>, k: nat, it: Item<T>)
    requires Distinct(s) && k <= |s| && it !in s
    ensures var t := s[..k] + [it] + s[k..];
            && Distinct(t)
            && (forall i | 0 <= i < k :: t[i] == s[i]) && t[k] == it
            && (forall i | k < i < |t| :: t[i] == s[i - 1])
  {
  }

  /** The item after a deleted one takes over its back link, and with it a correct one. */
  function Relinked(b: seq<bool>): (r: seq<bool>)
    ensures |r| == |b|
  {
    if b == [] then [] else [true] + b[1..]
  }

  /** The back links after an insertion before position k. */
  function BackWith(b: seq<bool>, k: nat): (r: seq<bool>)
    requires k <= |b|
    ensures |r| == |b| + 1
  {
    if k == |b| then b + [true] else b[..k] + [k == 0] + b[k..]
  }

  /** What is left when item k is deleted: without its back link, only what is behind it. */
  function Left<X>(s: seq<X>, b: seq<bool>, k: nat): (r: seq<X>)
    requires k < |b| == |s|
  {
    (if b[k] then s[..k] else []) + s[k + 1..]
  }

  /** The back links that are left. */
  function BackLeft(b: seq<bool>, k: nat): (r: seq<bool>)
    requires k < |b|
  {
    (if b[k] then b[..k] else []) + Relinked(b[k + 1..])
  }

  /** Where the item at position i stood before item k, and with it perhaps all items in front, disappeared. */
  function Before(b: seq<bool>, k: nat, i: nat): nat
    requires k < |b|
  {
    if !b[k] then i + k + 1 else if i < k then i else i + 1
  }

  lemma LeftAt<X>(s: seq<X>, b: seq<bool>, k: nat)
    requires k < |b| == |s|
    ensures |Left(s, b, k)| == |BackLeft(b, k)| == if b[k] then |s| - 1 else |s| - k - 1
    ensures forall i | 0 <= i < |Left(s, b, k)| :: Before(b, k, i) < |s| && Left(s, b, k)[i] == s[Before(b, k, i)]
  {
  }

  lemma BackLeftAt(b: seq<bool>, k: nat, i: nat)
    requires k < |b| && i < |BackLeft(b, k)|
    ensures Before(b, k, i) < |b| && BackLeft(b, k)[i] == (Before(b, k, i) == k + 1 || b[Before(b, k, i)])
  {
  }

  lemma LeftDistinct<T>(s: seq<Item<T>>, b: seq<bool>, k: nat)
    requires Distinct(s) && k < |b| == |s|
    ensures Distinct(Left(s, b, k))
  {
    hide Left, BackLeft;
    LeftAt(s, b, k);
  }

  /** The links of item i within the chain s; without its back link it looks like a head. */
  ghost predicate Links<T>(s: seq<Item<T>>, back: seq<bool>, i: nat)
    requires i < |s| == |back|
    reads s
  {
    && s[i].next == (if i + 1 < |s| then s[i + 1] else null)
    && s[i].prev == (if i > 0 && back[i] then s[i - 1] else null)
  }

  /** The chain is linked up, from head to tail. */
  ghost predicate Chain<T>(s: seq<Item<T>>, back: seq<bool>, head: Item?<T>, tail: Item?<T>)
    reads s
  {
    && |s| == |back| && Distinct(s)
    && (if s == [] then head == null && tail == null else back[0] && head == s[0] && tail == s[|s| - 1])
    && (forall i | 0 <= i < |s| :: Links(s, back, i))
  }

  lemma ChainEnds<T>(l: List<T>, k: nat)
    requires l.Valid() && k < |l.items|
    ensures |l.back| == |l.items| && forall x | 0 <= x < |l.items| :: l.items[x] in l.items
    ensures l.items[k].next == if k + 1 < |l.items| then l.items[k + 1] else null
    ensures l.items[k].prev == if k > 0 && l.back[k] then l.items[k - 1] else null
    ensures k > 0 ==> l.items[k - 1] != l.items[k]
    ensures k > 0 ==> l.items[k] != l.head
    ensures forall x | 0 <= x < |l.items| && x != k :: l.items[x] != l.items[k]
    ensures k + 1 < |l.items| ==> l.items[k + 1] != l.items[k]
    ensures k > 0 && k + 1 < |l.items| ==> l.items[k + 1] != l.items[k - 1]
    ensures forall x | 0 <= x < |l.items| && x != k - 1 :: k == 0 || l.items[x] != l.items[k - 1]
    ensures forall x | 0 <= x < |l.items| && x != k + 1 :: k + 1 == |l.items| || l.items[x] != l.items[k + 1]
    ensures l.head == l.items[0] && l.tail == l.items[|l.items| - 1] && l.back[0]
  {
    assert Links(l.items, l.back, k);
  }

  /** Once the links around position k have been set as bano_list_add_before does, the rest is a chain. */
  twostate lemma Inserted<T>(s: seq<Item<T>>, new b: seq<bool>, new head0: Item?<T>, new tail: Item?<T>, new k: nat,
                             new it: Item<T>, new head: Item?<T>)
    requires old(allocated(head0) && allocated(tail) && Chain(s, b, head0, tail)) && k < |s| && b[k] && it !in s
    requires it.next == s[k] && it.prev == null
    requires forall x | 0 <= x < |s| :: s[x].next == if x == k - 1 then it else old(s[x].next)
    requires forall x | 0 <= x < |s| :: s[x].prev == if x == k then it else old(s[x].prev)
    requires head == if k == 0 then it else head0
    ensures Chain(s[..k] + [it] + s[k..], b[..k] + [k == 0] + b[k..], head, tail)
  {
    Splice(s, k, it);
    var items, back := s[..k] + [it] + s[k..], b[..k] + [k == 0] + b[k..];
    forall i | 0 <= i < |items| ensures Links(items, back, i) {
      if i != k {
        var j := if i < k then i else i - 1;
        assert old(Links(s, b, j));
        assert back[i] == b[j];
      }
    }
  }

  /** Once the neighbours of item k have been changed as bano_list_del does, the rest is a chain. */
  twostate lemma Unlinked<T>(s: seq<Item<T>>, new b: seq<bool>, new head0: Item?<T>, new tail0: Item?<T>, new k: nat,
                             new head: Item?<T>, new tail: Item?<T>)
    requires old(allocated(head0) && allocated(tail0) && Chain(s, b, head0, tail0)) && k < |s|
    requires forall x | 0 <= x < |s| ::
               s[x].next == if k > 0 && b[k] && x == k - 1 then old(s[k].next) else old(s[x].next)
    requires forall x | 0 <= x < |s| :: s[x].prev == if x == k + 1 then old(s[k].prev) else old(s[x].prev)
    requires head == if k > 0 && b[k] then head0 else old(s[k].next)
    requires tail == if k + 1 < |s| then tail0 else old(s[k].prev)
    ensures Chain(Left(s, b, k), BackLeft(b, k), head, tail)
  {
    hide Links, Distinct, Left, BackLeft, Before;
    LeftAt(s, b, k);
    LeftDistinct(s, b, k);
    var items, back := Left(s, b, k), BackLeft(b, k);
    forall i | 0 <= i < |items|
      ensures Before(b, k, i) < |s| && back[i] == (Before(b, k, i) == k + 1 || b[Before(b, k, i)])
    {
      BackLeftAt(b, k, i);
    }
    forall j | 0 <= j < |items| ensures Links(items, back, j) {
      UnlinkedAt(s, b, k, items, back, j);
    }
    EndsAfter(s, b, head0, tail0, k, head, tail);
  }

  /** The links of one item, before or behind those that were cut out. */
  twostate lemma UnlinkedAt<T>(s: seq<Item<T>>, new b: seq<bool>, new k: nat, new items: seq<Item<T>>,
                               new back: seq<bool>, new j: nat)
    requires k < |s| == |b| && (forall i | 0 <= i < |s| :: old(Links(s, b, i))) && b[0]
    requires forall x | 0 <= x < |s| ::
               s[x].next == if k > 0 && b[k] && x == k - 1 then old(s[k].next) else old(s[x].next)
    requires forall x | 0 <= x < |s| :: s[x].prev == if x == k + 1 then old(s[k].prev) else old(s[x].prev)
    requires j < |items| == |back| == (if b[k] then |s| - 1 else |s| - k - 1)
    requires forall i | 0 <= i < |items| :: Before(b, k, i) < |s| && items[i] == s[Before(b, k, i)]
    requires forall i | 0 <= i < |items| ::
               Before(b, k, i) < |s| && back[i] == (Before(b, k, i) == k + 1 || b[Before(b, k, i)])
    ensures Links(items, back, j)
  {
    assert old(Links(s, b, k)) && old(Links(s, b, Before(b, k, j)));
  }

  twostate lemma EndsAfter<T>(s: seq<Item<T>>, new b: seq<bool>, new head0: Item?<T>, new tail0: Item?<T>, new k: nat,
                              new head: Item?<T>, new tail: Item?<T>)
    requires k < |s| == |b| && old(Links(s, b, k)) && b[0] && head0 == s[0] && tail0 == s[|s| - 1]
    requires head == if k > 0 && b[k] then head0 else old(s[k].next)
    requires tail == if k + 1 < |s| then tail0 else old(s[k].prev)
    ensures var items, back := Left(s, b, k), BackLeft(b, k);
            if items == [] then head == null && tail == null
            else back[0] && head == items[0] && tail == items[|items| - 1]
  {
    hide Left, BackLeft;
    LeftAt(s, b, k);
    if |Left(s, b, k)| > 0 { BackLeftAt(b, k, 0); }
  }

  /**
   * The forward links run through all items. `back` tells which items have a back link (or need
   * none, at the head): bano_list_add_before does not set the one of the new item.
   */
  class List<T> {
    var head: Item?<T>
    var tail: Item?<T>
    ghost var items: seq<Item<T>>
    ghost var back: seq<bool>

    ghost predicate Valid()
      reads this, items
    {
      Chain(items, back, head, tail)
    }

    /** The data in the order of the forward links. */
    ghost function Contents(): (s: seq<T>)
      reads this, items
      ensures |s| == |items|
      ensures forall i | 0 <= i < |s| :: s[i] == items[i].data
    {
      seq(|items|, i requires 0 <= i < |items| reads this, items => items[i].data)
    }

    /** bano_list_init */
    constructor ()
      ensures Valid() && items == []
    {
      head, tail, items, back := null, null, [], [];
    }

    /** bano_list_is_empty */
    method IsEmpty() returns (empty: bool)
      requires Valid()
      ensures empty <==> Contents() == []
    {
      empty := head == null;
    }

    /** bano_list_add_tail */
    method AddTail(p: T)
      requires Valid()
      modifies this, items
      ensures Valid() && items != [] && fresh(items[|items| - 1]) && items[..|items| - 1] == old(items)
      ensures items[|items| - 1].data == p && forall i | 0 <= i < |old(items)| :: items[i].data == old(items[i].data)
      ensures back == old(back) + [true]
    {
      hide Distinct;
      ghost var s := items;
      assert forall j | 0 <= j < |s| :: s[j] in s;
      var i := new Item(p);
      Splice(s, |s|, i);
      i.prev := tail;
      if tail != null {
        tail.next := i;
      } else {
        head := i;
      }
      tail := i;
      items, back := s + [i], back + [true];
      assert items == s[..|s|] + [i] + s[|s|..];
      forall j | 0 <= j < |items| ensures Links(items, back, j) {
        if j < |s| {
          assert old(Links(s, back, j));
          if s[j] == s[|s| - 1] { DistinctIndex(s, j, |s| - 1); }
        }
      }
    }

    /**
     * bano_list_add_before. Tells whether the source does something defined: before an item without its
     * back link, other than the head, it follows a null pointer. Otherwise the forward chain comes out
     * right; the new item has no back link, which is correct only at the head.
     */
    method AddBefore(it_next: Item<T>, p: T, ghost k: nat) returns (defined: bool)
      requires Valid() && k < |items| && it_next == items[k]
      modifies this, items
      ensures Valid() && (defined <==> old(back[k]))
      ensures !defined ==> unchanged(this) && unchanged(old(items))
      ensures defined ==> |items| == |old(items)| + 1 && fresh(items[k])
      ensures defined ==> items == old(items)[..k] + [items[k]] + old(items)[k..]
      ensures defined ==> items[k].data == p && it_next.prev == items[k]
      ensures defined ==> back == old(back)[..k] + [k == 0] + old(back)[k..]
      ensures forall i | 0 <= i < |old(items)| :: old(items)[i].data == old(items[i].data)
    {
      hide Distinct, Chain, Links;
      ghost var s, b := items, back;
      ChainEnds(this, k);
      if it_next != head && it_next.prev == null { return false; }
      defined := true;
      var it := new Item(p);
      if it_next == head {
        head := it;
      } else {
        it_next.prev.next := it;
      }
      it.next := it_next;
      it_next.prev := it;
      items, back := s[..k] + [it] + s[k..], b[..k] + [k == 0] + b[k..];
      Inserted(s, b, old(head), tail, k, it, head);
    }

    /**
     * bano_list_del. With its back link the item alone disappears. Without it, the source takes the
     * item for the head: all items before it are lost as well.
     */
    method Del(i: Item<T>, ghost k: nat)
      requires Valid() && k < |items| && i == items[k]
      modifies this, items
      ensures Valid()
      ensures items == Left(old(items), old(back), k) && back == BackLeft(old(back), k)
      ensures forall j | 0 <= j < |old(items)| :: old(items)[j].data == old(items[j].data)
    {
      hide Distinct, Chain, Links, Left, BackLeft;
      ghost var s, b := items, back;
      ChainEnds(this, k);
      if i.prev != null {
        i.prev.next := i.next;
      } else {
        head := i.next;
      }
      if i.next != null {
        i.next.prev := i.prev;
      } else {
        tail := i.prev;
      }
      items, back := Left(s, b, k), BackLeft(b, k);
      Unlinked(s, b, old(head), old(tail), k, head, tail);
    }

    /** bano_list_find, for the first item that satisfies f; also the traversal of bano_list_foreach. */
    method Find(f: T -> bool) returns (res: Item?<T>, ghost k: nat)
      requires Valid()
      ensures res == null ==> k == |items| && forall j | 0 <= j < |items| :: !f(items[j].data)
      ensures res != null ==>
                k < |items| && res == items[k] && f(res.data) && forall j | 0 <= j < k :: !f(items[j].data)
    {
      res, k := head, 0;
      while res != null
        invariant k <= |items| && res == if k < |items| then items[k] else null
        invariant forall j | 0 <= j < k :: !f(items[j].data)
        decreases |items| - k
      {
        if f(res.data) { return; }
        assert Links(items, back, k);
        res := res.next;
        k := k + 1;
      }
    }
  }

  /**
   * The missing back link matters: insert 2 between 1 and 3, then delete it. The list does not go back
   * to [1, 3]: 1 is lost.
   */
  method LosesEarlierItems() returns (l: List<int>)
    ensures l.Valid() && l.Contents() == [3]
  {
    l := new List<int>();
    l.AddTail(1);
    l.AddTail(3);
    var defined := l.AddBefore(l.tail, 2, 1);
    ghost var last := l.items[2];
    l.Del(l.tail.prev, 1);
    assert l.items == [last];
  }
}
