/** The delta-encoded timer queue: each timer stores its distance to the one before. */
module Timer {
  import opened LinkedList

  // ---------------------------------------------------------------- deltas and deadlines

  /** The sum of the first n deltas. */
  function Sum(rels: seq<nat>, n: nat): nat
    requires n <= |rels|
  {
    if n == 0 then 0 else Sum(rels, n - 1) + rels[n - 1]
  }

  /** The absolute times at which the timers are due. */
  function Deadlines(rels: seq<nat>): (d: seq<nat>)
    ensures |d| == |rels|
    ensures forall i | 0 <= i < |d| :: d[i] == Sum(rels, i + 1)
  {
    seq(|rels|, i requires 0 <= i < |rels| => Sum(rels, i + 1))
  }

  predicate Sorted(d: seq<nat>) {
    forall i, j | 0 <= i < j < |d| :: d[i] <= d[j]
  }

  /** The first position from i on whose deadline is after ms. */
  function FirstAfter(d: seq<nat>, ms: nat, i: nat): (k: nat)
    requires i <= |d|
    ensures i <= k <= |d|
    decreases |d| - i
  {
    if i == |d| || d[i] > ms then i else FirstAfter(d, ms, i + 1)
  }

  /** Stable insertion into a sorted list: behind everything that is not later. */
  function SortedInsert(d: seq<nat>, ms: nat): (r: seq<nat>)
    ensures |r| == |d| + 1
  {
    var k := FirstAfter(d, ms, 0);
    d[..k] + [ms] + d[k..]
  }

  /** k timers are due at ms or before, and then one that is due later. */
  predicate PlaceFor(rels: seq<nat>, ms: nat, k: nat) {
    k <= |rels| && Sum(rels, k) <= ms && (k < |rels| ==> ms < Sum(rels, k + 1))
  }

  /** What bano_timer_add makes of the deltas, with k timers before the new one. */
  function InsertRel(rels: seq<nat>, ms: nat, k: nat): (r: seq<nat>)
    requires PlaceFor(rels, ms, k)
    ensures |r| == |rels| + 1
    ensures forall i | 0 <= i < |r| :: r[i] == if i < k then rels[i] else if i == k then ms - Sum(rels, k)
                                               else if i == k + 1 then Sum(rels, k + 1) - ms else rels[i - 1]
  {
    rels[..k] + [ms - Sum(rels, k)] + (if k == |rels| then [] else [Sum(rels, k + 1) - ms] + rels[k + 1..])
  }

  lemma {:induction false} SumMono(rels: seq<nat>, i: nat, j: nat)
    requires i <= j <= |rels|
    ensures Sum(rels, i) <= Sum(rels, j)
  {
    if i < j { SumMono(rels, i, j - 1); }
  }

  lemma DeadlinesSorted(rels: seq<nat>)
    ensures Sorted(Deadlines(rels))
  {
    var d := Deadlines(rels);
    forall i, j | 0 <= i < j < |d| ensures d[i] <= d[j] {
      SumMono(rels, i + 1, j + 1);
    }
  }

  lemma {:induction false} FirstAfterIs(d: seq<nat>, ms: nat, i: nat, k: nat)
    requires i <= k <= |d|
    requires forall j | i <= j < k :: d[j] <= ms
    requires k < |d| ==> d[k] > ms
    ensures FirstAfter(d, ms, i) == k
    decreases k - i
  {
    if i < k { FirstAfterIs(d, ms, i + 1, k); }
  }

  lemma {:induction false} InsertSums(rels: seq<nat>, ms: nat, k: nat, i: nat)
    requires PlaceFor(rels, ms, k) && i <= |rels| + 1
    ensures Sum(InsertRel(rels, ms, k), i) ==
            if i <= k then Sum(rels, i) else if i == k + 1 then ms else Sum(rels, i - 1)
  {
    hide InsertRel;
    if i > 0 { InsertSums(rels, ms, k, i - 1); }
  }

  /**
   * Insertion into the delta queue is stable insertion into the sorted list of deadlines: no
   * existing deadline moves, and the new one is exactly ms, behind those equal to it.
   */
  lemma InsertRefines(rels: seq<nat>, ms: nat, k: nat)
    requires PlaceFor(rels, ms, k)
    ensures Deadlines(InsertRel(rels, ms, k)) == SortedInsert(Deadlines(rels), ms)
    ensures Sorted(Deadlines(rels)) && Sorted(SortedInsert(Deadlines(rels), ms))
  {
    hide InsertRel, Sorted;
    DeadlinesSorted(rels);
    DeadlinesSorted(InsertRel(rels, ms, k));
    var d, e := Deadlines(rels), Deadlines(InsertRel(rels, ms, k));
    forall i | 0 <= i < k ensures d[i] <= ms { SumMono(rels, i + 1, k); }
    FirstAfterIs(d, ms, 0, k);
    var f := d[..k] + [ms] + d[k..];
    forall i | 0 <= i < |e| ensures e[i] == f[i] { InsertSums(rels, ms, k, i + 1); }
  }

  function Without(rels: seq<nat>, k: nat): (r: seq<nat>)
    requires k < |rels|
    ensures |r| == |rels| - 1
    ensures forall i | 0 <= i < |r| :: r[i] == if i < k then rels[i] else rels[i + 1]
  {
    rels[..k] + rels[k + 1..]
  }

  lemma {:induction false} WithoutSums(rels: seq<nat>, k: nat, i: nat)
    requires k < |rels| && i < |rels|
    ensures i <= k ==> Sum(Without(rels, k), i) == Sum(rels, i)
    ensures i >= k ==> Sum(Without(rels, k), i) + rels[k] == Sum(rels, i + 1)
  {
    hide Without;
    var w := Without(rels, k);
    assert Sum(rels, i + 1) == Sum(rels, i) + rels[i];
    if i > 0 {
      WithoutSums(rels, k, i - 1);
      assert Sum(w, i) == Sum(w, i - 1) + w[i - 1] && Sum(rels, i) == Sum(rels, i - 1) + rels[i - 1];
    }
  }

  /**
   * Deleting timer k leaves the earlier deadlines where they are and moves the later ones forward by
   * exactly its delta: not at all if it had expired at the head.
   */
  lemma DeleteMoves(rels: seq<nat>, k: nat, i: nat)
    requires k < |rels| && i < |rels| - 1
    ensures i < k ==> Deadlines(Without(rels, k))[i] == Deadlines(rels)[i]
    ensures i >= k ==> Deadlines(Without(rels, k))[i] + rels[k] == Deadlines(rels)[i + 1]
  {
    hide Without;
    WithoutSums(rels, k, i + 1);
  }

  /** Deleting a timer moves no other deadline if and only if its delta is 0 or no timer is behind it. */
  lemma DeleteHarmless(rels: seq<nat>, k: nat)
    requires k < |rels|
    ensures (forall i | 0 <= i < |rels| - 1 ::
               Deadlines(Without(rels, k))[i] == Deadlines(rels)[if i < k then i else i + 1])
            <==> rels[k] == 0 || k == |rels| - 1
  {
    hide Without, Deadlines;
    forall i: nat | i < |rels| - 1
      ensures i < k ==> Deadlines(Without(rels, k))[i] == Deadlines(rels)[i]
      ensures i >= k ==> Deadlines(Without(rels, k))[i] + rels[k] == Deadlines(rels)[i + 1]
    {
      DeleteMoves(rels, k, i);
    }
    if k < |rels| - 1 { DeleteMoves(rels, k, k); }
  }

  /** A new delta of the head moves all deadlines together. */
  lemma {:induction false} UpdateShifts(rels: seq<nat>, ms: nat, i: nat)
    requires i < |rels|
    ensures Deadlines(rels[0 := ms])[i] + rels[0] == Deadlines(rels)[i] + ms
  {
    var r := rels[0 := ms];
    assert Sum(rels, i + 1) == Sum(rels, i) + rels[i] && Sum(r, i + 1) == Sum(r, i) + r[i];
    if i > 0 {
      UpdateShifts(rels, ms, i - 1);
      assert Deadlines(r)[i - 1] == Sum(r, i) && Deadlines(rels)[i - 1] == Sum(rels, i);
    }
  }

  // ---------------------------------------------------------------- the queue

  class Timer {
    var rel_ms: nat
    var it: Item?<Timer>

    constructor ()
      ensures it == null
    {
      rel_ms, it := 0, null;
    }
  }

  /** The list of timers, as bano_list.c links it. All deadlines fit 32 bits, so no sum ever wraps. */
  class Queue {
    const li: List<Timer>

    ghost function Timers(): seq<Timer>
      reads li, li.items
    {
      li.Contents()
    }

    ghost function Rels(): (r: seq<nat>)
      reads li, li.items, Timers()
      ensures |r| == |Timers()|
      ensures forall i | 0 <= i < |r| :: r[i] == Timers()[i].rel_ms
    {
      seq(|Timers()|, i requires 0 <= i < |Timers()| reads li, li.items, Timers() => Timers()[i].rel_ms)
    }

    ghost predicate Valid()
      reads li, li.items, Timers()
    {
      && li.Valid()
      && (forall i, j | 0 <= i < j < |Timers()| :: Timers()[i] != Timers()[j])
      && (forall i | 0 <= i < |Timers()| :: Timers()[i].it == li.items[i])
      && Sum(Rels(), |Rels()|) < 0x1_0000_0000
    }

    /** bano_timer_init */
    constructor ()
      ensures Valid() && Timers() == [] && li.items == [] && fresh(li)
    {
      li := new List<Timer>();
    }

    /** The loop of bano_timer_add that finds the item to insert before, or null. */
    method FindPlace(ms: nat) returns (it: Item?<Timer>, ms_sum: nat, ghost k: nat)
      requires Valid()
      ensures PlaceFor(Rels(), ms, k) && ms_sum == Sum(Rels(), k)
      ensures it == if k < |li.items| then li.items[k] else null
      ensures it != null ==> ms_sum <= ms < ms_sum + it.data.rel_ms == Sum(Rels(), k + 1)
    {
      it, ms_sum, k := li.head, 0, 0;
      while it != null
        invariant k <= |li.items| && it == if k < |li.items| then li.items[k] else null
        invariant ms_sum == Sum(Rels(), k) <= ms
        decreases |li.items| - k
      {
        var ti := it.data;
        assert ti == Timers()[k] && Sum(Rels(), k + 1) == ms_sum + ti.rel_ms;
        if ms_sum + ti.rel_ms > ms { return; }
        ms_sum := ms_sum + ti.rel_ms;
        assert Links(li.items, li.back, k);
        it := it.next;
        k := k + 1;
      }
    }

    /** The part of bano_timer_add for the last timer. */
    method AddLast(ti: Timer, ms: nat, ms_sum: nat)
      requires Valid() && ms < 0x1_0000_0000 && ti !in Timers()
      requires PlaceFor(Rels(), ms, |Timers()|) && ms_sum == Sum(Rels(), |Timers()|)
      modifies li, li.items, ti
      ensures Valid() && Timers() == old(Timers()) + [ti]
      ensures Rels() == InsertRel(old(Rels()), ms, |old(Timers())|)
      ensures li.back == old(li.back) + [true]
      ensures forall i | 0 <= i < |li.items| :: li.items[i] in old(li.items) || fresh(li.items[i])
    {
      hide List.Valid, Chain, InsertRel, Sum;
      ghost var k := |Timers()|;
      li.AddTail(ti);
      ChainEnds(li, k);
      assert Timers() == old(Timers()) + [ti] == old(Timers())[..k] + [ti] + old(Timers())[k..];
      assert li.items == old(li.items)[..k] + [li.items[k]] + old(li.items)[k..];
      ti.it := li.tail;
      ti.rel_ms := ms - ms_sum;
      Added(this, ms, k, ti);
    }

    /** The list operation for a timer before another one. */
    method PutBefore(it: Item<Timer>, ti: Timer, ghost k: nat) returns (defined: bool)
      requires Valid() && k < |Timers()| && it == li.items[k]
      modifies li, li.items
      ensures li.Valid() && k < |old(li.back)| && (defined <==> old(li.back)[k]) && it.data == old(Timers())[k]
      ensures !defined ==> unchanged(li) && unchanged(old(li.items))
      ensures defined ==> Timers() == old(Timers())[..k] + [ti] + old(Timers())[k..]
      ensures defined ==> |li.items| == |old(li.items)| + 1 && fresh(li.items[k]) && it.prev == li.items[k]
      ensures defined ==> li.items == old(li.items)[..k] + [li.items[k]] + old(li.items)[k..]
      ensures defined ==> li.back == old(li.back)[..k] + [k == 0] + old(li.back)[k..]
    {
      hide List.Valid, Chain, Links, Sum;
      BacksMatch(this);
      assert it.data == Timers()[k];
      defined := li.AddBefore(it, ti, k);
      if defined { assert Timers() == old(Timers())[..k] + [ti] + old(Timers())[k..]; }
    }

    /** The part of bano_timer_add for a timer before another one. */
    method AddBetween(it: Item<Timer>, ti: Timer, ms: nat, ms_sum: nat, ghost k: nat) returns (defined: bool)
      requires Valid() && ms < 0x1_0000_0000 && ti !in Timers()
      requires k < |Timers()| && PlaceFor(Rels(), ms, k) && ms_sum == Sum(Rels(), k)
      requires it == li.items[k]
      modifies li, li.items, ti, Timers()
      ensures k < |old(li.back)| && (defined <==> old(li.back)[k])
      ensures !defined ==> unchanged(li) && unchanged(old(li.items)) && unchanged(old(Timers()))
      ensures defined ==> Valid() && Timers() == old(Timers())[..k] + [ti] + old(Timers())[k..]
      ensures defined ==> Rels() == InsertRel(old(Rels()), ms, k)
      ensures defined ==> li.back == old(li.back)[..k] + [k == 0] + old(li.back)[k..]
      ensures forall i | 0 <= i < |li.items| :: li.items[i] in old(li.items) || fresh(li.items[i])
    {
      hide List.Valid, Chain, Links, InsertRel, Sum, BackWith;
      SumNext(Rels(), k);
      defined := PutBefore(it, ti, k);
      if !defined { return; }
      ti.it := it.prev;
      ti.rel_ms := ms - ms_sum;
      var next_ti := it.data;
      next_ti.rel_ms := ms_sum + next_ti.rel_ms - ms;
      Added(this, ms, k, ti);
      ItemsOf(old(li.items), k, li.items[k], li.items);
    }

    /**
     * bano_timer_add. Its behaviour is defined if and only if the timer goes to the end, or before an item
     * that has its back link (see List.AddBefore).
     */
    method Add(ms: nat) returns (defined: bool, ti: Timer, ghost k: nat)
      requires Valid() && ms < 0x1_0000_0000
      modifies li, li.items, Timers()
      ensures Valid() && fresh(ti) && PlaceFor(old(Rels()), ms, k) && |old(li.back)| == |old(Timers())|
      ensures defined <==> k == |old(Timers())| || old(li.back)[k]
      ensures !defined ==> Timers() == old(Timers()) && Rels() == old(Rels()) && li.back == old(li.back)
      ensures defined ==> Timers() == old(Timers())[..k] + [ti] + old(Timers())[k..]
      ensures defined ==> Rels() == InsertRel(old(Rels()), ms, k) && li.back == BackWith(old(li.back), k)
      ensures forall i | 0 <= i < |li.items| :: li.items[i] in old(li.items) || fresh(li.items[i])
    {
      hide List.Valid, Chain, InsertRel, Sum;
      BacksMatch(this);
      var it, ms_sum;
      it, ms_sum, k := FindPlace(ms);
      ti := new Timer();
      if it == null {
        defined := true;
        AddLast(ti, ms, ms_sum);
        assert old(Timers())[..k] == old(Timers()) && old(Timers())[k..] == [];
      } else {
        defined := AddBetween(it, ti, ms, ms_sum, k);
      }
    }

    /**
     * bano_timer_del. The delta of the deleted timer is not given to the next one. With its back link
     * the timer alone disappears; without it all timers before it are lost, too.
     */
    method Del(ti: Timer, ghost k: nat)
      requires Valid() && k < |Timers()| && ti == Timers()[k]
      modifies li, li.items
      ensures Valid()
      ensures |old(li.back)| == |old(Timers())| && Timers() == Left(old(Timers()), old(li.back), k)
      ensures Rels() == Left(old(Rels()), old(li.back), k) && li.back == BackLeft(old(li.back), k)
      ensures Rels() == Without(old(Rels()), k) <==> old(li.back)[k]
    {
      hide List.Valid, Chain, Sum, Without, Relinked;
      ChainEnds(li, k);
      li.Del(ti.it, k);
      Deleted(this, k);
    }

    /** bano_timer_get_next */
    method GetNext() returns (ti: Timer?)
      requires Valid()
      ensures if Timers() == [] then ti == null else ti == Timers()[0]
    {
      ti := if li.head == null then null else li.head.data;
    }

    /** bano_timer_update, for the timer at the head and a time that is not later than it was */
    method UpdateHead(ti: Timer, tv_sec: nat, tv_usec: nat)
      requires Valid() && Timers() != [] && ti == Timers()[0]
      requires tv_sec * 1000 + tv_usec / 1000 <= ti.rel_ms
      modifies ti
      ensures Valid() && Timers() == old(Timers())
      ensures Rels() == old(Rels())[0 := tv_sec * 1000 + tv_usec / 1000]
    {
      ti.rel_ms := tv_sec * 1000;
      ti.rel_ms := ti.rel_ms + tv_usec / 1000;
      assert Rels() == old(Rels())[0 := tv_sec * 1000 + tv_usec / 1000];
      SumSmaller(old(Rels()), Rels(), |Rels()|);
    }
  }

  lemma ItemsOf<X>(s: seq<X>, k: nat, x: X, t: seq<X>)
    requires k <= |s| && t == s[..k] + [x] + s[k..]
    ensures forall i | 0 <= i < |t| :: t[i] == x || t[i] in s
  {
    Spliced(s, k, x, t);
    forall i | 0 <= i < |t| ensures t[i] == x || t[i] in s {
      if i != k { assert t[i] == s[if i < k then i else i - 1]; }
    }
  }

  lemma BacksMatch(q: Queue)
    requires q.Valid()
    ensures |q.li.back| == |q.Timers()|
  {
  }

  lemma {:induction false} SumSmaller(a: seq<nat>, b: seq<nat>, n: nat)
    requires n <= |a| == |b| && forall i | 0 <= i < |a| :: b[i] <= a[i]
    ensures Sum(b, n) <= Sum(a, n)
  {
    if n > 0 { SumSmaller(a, b, n - 1); }
  }

  lemma SumNextOr(rels: seq<nat>, k: nat)
    requires k <= |rels|
    ensures k < |rels| ==> Sum(rels, k + 1) == Sum(rels, k) + rels[k]
  {
  }

  lemma SumNext(rels: seq<nat>, k: nat)
    requires k < |rels|
    ensures Sum(rels, k + 1) == Sum(rels, k) + rels[k]
  {
  }

  /** The state after the list operation and the assignments of bano_timer_add. */
  twostate lemma Added(q: Queue, new ms: nat, new k: nat, new ti: Timer)
    requires old(q.Valid()) && PlaceFor(old(q.Rels()), ms, k) && q.li.Valid() && ms < 0x1_0000_0000
    requires ti !in old(q.Timers()) && |q.li.items| == |old(q.li.items)| + 1
    requires q.Timers() == old(q.Timers())[..k] + [ti] + old(q.Timers())[k..]
    requires ti.rel_ms == ms - Sum(old(q.Rels()), k)
    requires forall i | 0 <= i < |old(q.Timers())| ::
               old(q.Timers())[i].rel_ms == if i == k then Sum(old(q.Rels()), k + 1) - ms else old(q.Rels())[i]
    requires q.li.items == old(q.li.items)[..k] + [q.li.items[k]] + old(q.li.items)[k..] && ti.it == q.li.items[k]
    requires forall i | 0 <= i < |old(q.Timers())| :: old(q.Timers())[i].it == old(q.li.items)[i]
    ensures q.Rels() == InsertRel(old(q.Rels()), ms, k)
    ensures q.Valid()
  {
    hide InsertRel, List.Valid, Sum;
    var s, t, a, b := old(q.Timers()), q.Timers(), old(q.Rels()), q.Rels();
    Spliced(s, k, ti, t);
    forall i | 0 <= i < |b| && i != k
      ensures b[i] == if i == k + 1 then Sum(a, k + 1) - ms else a[if i < k then i else i - 1]
    {
      assert t[i] == s[if i < k then i else i - 1];
    }
    InsertedRels(a, ms, k, b);
    AddedDistinct(s, k, ti, t);
    var u, v := old(q.li.items), q.li.items;
    Spliced(u, k, v[k], v);
    forall i | 0 <= i < |t| ensures t[i].it == v[i] {
      if i != k {
        assert t[i] == s[if i < k then i else i - 1] && v[i] == u[if i < k then i else i - 1];
      }
    }
  }

  /** The state after the list operation of bano_timer_del. */
  twostate lemma Deleted(q: Queue, new k: nat)
    requires old(q.Valid()) && k < |old(q.Timers())| && q.li.Valid()
    requires old(q.li.back[0]) && |old(q.li.back)| == |old(q.li.items)|
    requires q.li.items == Left(old(q.li.items), old(q.li.back), k)
    requires forall j | 0 <= j < |old(q.li.items)| :: old(q.li.items)[j].data == old(q.li.items[j].data)
    requires forall j | 0 <= j < |old(q.Timers())| ::
               old(q.Timers())[j].it == old(q.li.items)[j] && old(q.Timers())[j].rel_ms == old(q.Rels())[j]
    ensures q.Valid()
    ensures q.Timers() == Left(old(q.Timers()), old(q.li.back), k)
    ensures q.Rels() == Left(old(q.Rels()), old(q.li.back), k)
    ensures q.Rels() == Without(old(q.Rels()), k) <==> old(q.li.back)[k]
  {
    hide List.Valid, Sum, Left, Before;
    var b, s, u, v := old(q.li.back), old(q.Timers()), old(q.li.items), q.li.items;
    LeftAt(u, b, k);
    LeftAt(s, b, k);
    LeftAt(old(q.Rels()), b, k);
    LeftOrder(b, k);
    forall i | 0 <= i < |v| ensures q.Timers()[i] == s[Before(b, k, i)] && v[i] == u[Before(b, k, i)] {
    }
    assert q.Timers() == Left(s, b, k);
    assert q.Rels() == Left(old(q.Rels()), b, k);
    LeftSums(old(q.Rels()), b, k);
  }

  lemma LeftOrder(b: seq<bool>, k: nat)
    requires k < |b|
    ensures forall i, j | 0 <= i < j :: Before(b, k, i) < Before(b, k, j)
  {
  }

  /** Deleting does not add to the deltas, and takes exactly one of them away if the back link is there. */
  lemma LeftSums(rels: seq<nat>, b: seq<bool>, k: nat)
    requires k < |b| == |rels|
    ensures Sum(Left(rels, b, k), |Left(rels, b, k)|) <= Sum(rels, |rels|)
    ensures Left(rels, b, k) == Without(rels, k) <==> b[k] || k == 0
  {
    hide Sum;
    if b[k] {
      assert Left(rels, b, k) == Without(rels, k);
      WithoutSums(rels, k, |rels| - 1);
    } else {
      assert Left(rels, b, k) == rels[k + 1..];
      SumDrop(rels, k + 1, |rels| - k - 1);
    }
  }

  /** What is left is due no later than before. */
  lemma LeftDue(rels: seq<nat>, b: seq<bool>, k: nat, i: nat)
    requires k < |b| == |rels| && i < |Left(rels, b, k)|
    ensures Before(b, k, i) < |rels| && Sum(Left(rels, b, k), i + 1) <= Sum(rels, Before(b, k, i) + 1)
  {
    hide Sum;
    if b[k] {
      assert Left(rels, b, k) == Without(rels, k);
      WithoutSums(rels, k, i + 1);
    } else {
      assert Left(rels, b, k) == rels[k + 1..];
      SumDrop(rels, k + 1, i + 1);
    }
  }

  lemma {:induction false} SumDrop(rels: seq<nat>, k: nat, n: nat)
    requires k + n <= |rels|
    ensures Sum(rels[k..], n) + Sum(rels, k) == Sum(rels, k + n)
  {
    if n > 0 { SumDrop(rels, k, n - 1); }
  }

  /** A timer that is not due before all others goes to the end of the list, where no back link is missing. */
  lemma LatestGoesLast(rels: seq<nat>, ms: nat, k: nat)
    requires PlaceFor(rels, ms, k) && Sum(rels, |rels|) <= ms
    ensures k == |rels|
  {
    if k < |rels| { SumMono(rels, k + 1, |rels|); }
  }

  method ExampleTwo() returns (q: Queue)
    ensures q.Valid() && fresh(q) && fresh(q.li) && fresh(q.li.items) && fresh(q.Timers())
    ensures q.Rels() == [1000, 2000] && q.li.back == [true, true]
  {
    hide *;
    q := new Queue();
    StartEmpty(q);
    ExamplePlaces();
    ExampleLinks([1000, 1000, 1000]);
    ghost var i, j;
    var ti, defined;
    defined, ti, i := q.Add(1000);
    assert q.Rels() == [1000] && q.li.back == [true];
    assert q.Timers() == [ti];
    assert fresh(q.li);
    assert fresh(q.li.items);
    assert fresh(q.Timers());
    ghost var first := ti;
    defined, ti, j := q.Add(3000);
    assert q.Timers() == [first, ti];
    assert fresh(q.li);
    assert fresh(q.li.items);
    assert fresh(q.Timers());
  }

  /** A third timer, between the two. */
  method ExampleThree() returns (q: Queue, ti: Timer)
    ensures q.Valid() && fresh(q) && fresh(q.li) && fresh(q.li.items) && fresh(q.Timers())
    ensures |q.Timers()| == 3 && ti == q.Timers()[1]
    ensures q.Rels() == [1000, 1000, 1000] && q.li.back == [true, false, true]
  {
    hide *;
    ExamplePlaces();
    ExampleLinks([1000, 1000, 1000]);
    q := ExampleTwo();
    var defined;
    ghost var k;
    defined, ti, k := q.Add(2000);
    assert k == 1 && defined;
    assert fresh(q.li);
    assert fresh(q.li.items);
    assert fresh(q.Timers());
  }

  /**
   * A timer set between two others and deleted again takes the first one with it, and lets the last
   * one, due after three seconds, expire after one.
   */
  method LosesDeadline() returns (q: Queue)
    ensures q.Valid() && q.Rels() == [1000]
  {
    hide *;
    var ti;
    q, ti := ExampleThree();
    ExampleLinks(q.Rels());
    q.Del(ti, 1);
  }

  /** A timer that belongs before the one in the middle makes the source follow a null pointer. */
  method NullPointer() returns (q: Queue, defined: bool)
    ensures q.Valid() && q.Rels() == [1000, 1000, 1000] && !defined
  {
    hide *;
    var ti;
    q, ti := ExampleThree();
    FourthPlace();
    ghost var k;
    defined, ti, k := q.Add(1500);
  }

  lemma FourthPlace()
    ensures forall k | PlaceFor([1000, 1000, 1000], 1500, k) :: k == 1
  {
    var rels: seq<nat> := [1000, 1000, 1000];
    assert Sum(rels, 1) == 1000 && Sum(rels, 2) == 2000;
  }

  lemma StartEmpty(q: Queue)
    requires q.Valid() && q.Timers() == []
    ensures q.Rels() == [] && q.li.back == []
  {
  }

  lemma ExamplePlaces()
    ensures forall i | PlaceFor([], 1000, i) :: i == 0 && InsertRel([], 1000, i) == [1000]
    ensures forall j | PlaceFor([1000], 3000, j) :: j == 1 && InsertRel([1000], 3000, j) == [1000, 2000]
    ensures forall k | PlaceFor([1000, 2000], 2000, k) ::
              k == 1 && InsertRel([1000, 2000], 2000, k) == [1000, 1000, 1000]
  {
    assert Sum([1000, 2000], 1) == 1000 && Sum([1000, 2000], 2) == 3000;
  }

  lemma ExampleLinks(rels: seq<nat>)
    requires rels == [1000, 1000, 1000]
    ensures BackWith([], 0) == [true] && BackWith([true], 1) == [true, true]
    ensures BackWith([true, true], 1) == [true, false, true]
    ensures Left(rels, [true, false, true], 1) == [1000]
  {
  }

  lemma AddedDistinct(s: seq<Timer>, k: nat, ti: Timer, t: seq<Timer>)
    requires k <= |s| && t == s[..k] + [ti] + s[k..] && ti !in s
    requires forall i, j | 0 <= i < j < |s| :: s[i] != s[j]
    ensures forall i, j | 0 <= i < j < |t| :: t[i] != t[j]
  {
    Spliced(s, k, ti, t);
    assert forall i | 0 <= i < |s| :: s[i] in s;
  }

  lemma InsertedRels(a: seq<nat>, ms: nat, k: nat, b: seq<nat>)
    requires PlaceFor(a, ms, k) && |b| == |a| + 1 && b[k] == ms - Sum(a, k)
    requires forall i | 0 <= i < |b| && i != k ::
               b[i] == if i == k + 1 then Sum(a, k + 1) - ms else a[if i < k then i else i - 1]
    ensures b == InsertRel(a, ms, k)
    ensures Sum(b, |b|) == if k == |a| then ms else Sum(a, |a|)
  {
    var r := InsertRel(a, ms, k);
    forall i | 0 <= i < |b| ensures b[i] == r[i] {
      if i > k + 1 { assert b[i] == a[i - 1]; }
    }
    InsertSums(a, ms, k, |b|);
  }
}
