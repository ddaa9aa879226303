/** The request and retry engine of the base station: IOs, their nodes, and the timers that drive retries. */
module Engine {
  import opened Bits
  import opened Options
  import opened Requests
  import opened Machine
  import L = LinkedList
  import T = Timer

  // ---------------------------------------------------------------- the invariant

  ghost predicate ListOk(n: Node, s: seq<Io>, ios: set<Io>, p: Place)
    reads ios
  {
    NoDup(s) && forall i | 0 <= i < |s| :: s[i] in ios && s[i].place == p && s[i].node == n
  }

  ghost predicate NodeOk(n: Node, ios: set<Io>)
    reads n, ios
  {
    ListOk(n, n.posted, ios, Posted) && ListOk(n, n.pending, ios, Pending)
  }

  ghost predicate IoOk(io: Io, nodes: seq<Node>)
    reads io, nodes
  {
    && io.Counted()
    && (io.place.Posted? ==> io.node in nodes && io in io.node.posted)
    && (io.place.Pending? ==> io.node in nodes && io in io.node.pending)
  }

  /** Pending IOs and the timers other than the loop timer correspond one to one. */
  ghost predicate TimersOk(owners: seq<Io?>, ios: set<Io>, loop_timer: bool)
    reads ios
  {
    && NoDup(owners)
    && (forall i | 0 <= i < |owners| && owners[i] != null :: owners[i] in ios && owners[i].place == Pending)
    && (forall io | io in ios && io.place == Pending :: io in owners)
    && (loop_timer <==> null in owners)
  }

  /** No timer is due later than a new one of its kind would be. */
  function Limit(owner: Io?, loop_ms: nat): nat {
    if owner == null then loop_ms else RETRY_MS
  }

  /**
   * Only one kind of timers ever lacks back links, as it is inserted before the other kind: the loop timer
   * if it is no slower than the timers of IOs, and those of IOs if it is.
   */
  predicate EntryOk(e: Entry, due: nat, loop_ms: nat) {
    due <= Limit(e.owner, loop_ms) && (e.back || (e.owner == null <==> loop_ms <= RETRY_MS))
  }

  ghost predicate Linked(timers: seq<Entry>, loop_ms: nat) {
    forall i | 0 <= i < |timers| :: EntryOk(timers[i], T.Deadlines(Rels(timers))[i], loop_ms)
  }

  lemma EnteredOwners(was: seq<Entry>, ms: nat, k: nat, owner: Io?, now: seq<Entry>)
    requires T.PlaceFor(Rels(was), ms, k) && Entered(was, ms, k, owner, now)
    ensures Owners(now) == Owners(was)[..k] + [owner] + Owners(was)[k..]
    ensures Backs(now) == L.BackWith(Backs(was), k)
  {
    hide T.Sum;
    var s, b := Owners(was)[..k] + [owner] + Owners(was)[k..],
        Backs(was)[..k] + [k == |was| || k == 0] + Backs(was)[k..];
    L.Spliced(Owners(was), k, owner, s);
    L.Spliced(Backs(was), k, k == |was| || k == 0, b);
    forall i | 0 <= i < |now| ensures Owners(now)[i] == s[i] && Backs(now)[i] == b[i] {
      if i > k + 1 { assert now[i] == was[i - 1]; }
    }
    assert b == L.BackWith(Backs(was), k);
  }

  lemma EnteredRels(was: seq<Entry>, ms: nat, k: nat, owner: Io?, now: seq<Entry>)
    requires T.PlaceFor(Rels(was), ms, k) && Entered(was, ms, k, owner, now)
    ensures Rels(now) == T.InsertRel(Rels(was), ms, k)
  {
    hide T.InsertRel;
    T.SumNextOr(Rels(was), k);
    T.InsertedRels(Rels(was), ms, k, Rels(now));
  }

  /** The delay that bano_timer_add is called with. */
  predicate DelayOk(ms: nat, owner: Io?, loop_ms: nat) {
    ms == Limit(owner, loop_ms)
  }

  /**
   * A timer that does not go to the end goes before one of the other kind, which has its back link: so
   * bano_list_add_before never follows a null pointer.
   */
  lemma Room(was: seq<Entry>, ms: nat, k: nat, owner: Io?, loop_ms: nat)
    requires Linked(was, loop_ms) && T.PlaceFor(Rels(was), ms, k) && DelayOk(ms, owner, loop_ms) && k < |was|
    requires owner == null ==> null !in Owners(was)
    ensures was[k].back && (owner == null <==> loop_ms <= RETRY_MS)
  {
    assert EntryOk(was[k], T.Deadlines(Rels(was))[k], loop_ms);
    assert Owners(was)[k] == was[k].owner;
  }

  lemma LinkedAdd(was: seq<Entry>, ms: nat, k: nat, owner: Io?, now: seq<Entry>, loop_ms: nat)
    requires Linked(was, loop_ms) && T.PlaceFor(Rels(was), ms, k) && DelayOk(ms, owner, loop_ms)
    requires owner == null ==> null !in Owners(was)
    requires |now| == |was| + 1 && Owners(now) == Owners(was)[..k] + [owner] + Owners(was)[k..]
    requires Rels(now) == T.InsertRel(Rels(was), ms, k) && Backs(now) == L.BackWith(Backs(was), k)
    ensures Linked(now, loop_ms)
  {
    hide T.InsertRel, T.Sum, L.BackWith, Linked;
    if k < |was| { Room(was, ms, k, owner, loop_ms); }
    L.Spliced(Owners(was), k, owner, Owners(now));
    forall i | 0 <= i < |now| ensures EntryOk(now[i], T.Deadlines(Rels(now))[i], loop_ms) {
      T.InsertSums(Rels(was), ms, k, i + 1);
      BackWithAt(Backs(was), k, i);
      assert Owners(now)[i] == now[i].owner && Backs(now)[i] == now[i].back;
      if i != k { LinkedAt(was, loop_ms, if i < k then i else i - 1); }
    }
    LinkedAll(now, loop_ms);
  }

  lemma BackWithAt(b: seq<bool>, k: nat, i: nat)
    requires k <= |b| && i <= |b|
    ensures L.BackWith(b, k)[i] == if i == k then k == |b| || k == 0 else b[if i < k then i else i - 1]
  {
  }

  lemma LinkedAt(timers: seq<Entry>, loop_ms: nat, i: nat)
    requires Linked(timers, loop_ms) && i < |timers|
    ensures EntryOk(timers[i], T.Sum(Rels(timers), i + 1), loop_ms)
    ensures timers[i].owner == Owners(timers)[i] && timers[i].back == Backs(timers)[i]
  {
    assert EntryOk(timers[i], T.Deadlines(Rels(timers))[i], loop_ms);
  }

  lemma LinkedAll(timers: seq<Entry>, loop_ms: nat)
    requires forall i | 0 <= i < |timers| :: EntryOk(timers[i], T.Deadlines(Rels(timers))[i], loop_ms)
    ensures Linked(timers, loop_ms)
  {
  }

  lemma LinkedDel(was: seq<Entry>, k: nat, now: seq<Entry>, loop_ms: nat)
    requires Linked(was, loop_ms) && k < |was| && |now| == |L.Left(Owners(was), Backs(was), k)|
    requires Owners(now) == L.Left(Owners(was), Backs(was), k) && Backs(now) == L.BackLeft(Backs(was), k)
    requires Rels(now) == L.Left(Rels(was), Backs(was), k)
    ensures Linked(now, loop_ms)
  {
    hide T.Sum, L.Left, L.BackLeft, L.Before, Linked;
    L.LeftAt(Owners(was), Backs(was), k);
    forall i | 0 <= i < |now| ensures EntryOk(now[i], T.Deadlines(Rels(now))[i], loop_ms) {
      L.BackLeftAt(Backs(was), k, i);
      T.LeftDue(Rels(was), Backs(was), k, i);
      LinkedAt(was, loop_ms, L.Before(Backs(was), k, i));
      assert Owners(now)[i] == now[i].owner && Backs(now)[i] == now[i].back;
    }
    LinkedAll(now, loop_ms);
  }

  /** Under a short loop timer no timer is due later than a new one of an IO, which therefore goes to the end. */
  lemma GoesLast(was: seq<Entry>, loop_ms: nat)
    requires Linked(was, loop_ms) && loop_ms <= RETRY_MS
    ensures forall k | T.PlaceFor(Rels(was), RETRY_MS, k) :: k == |was|
  {
    hide Linked, T.PlaceFor, T.Sum;
    if was != [] { LinkedAt(was, loop_ms, |was| - 1); }
    NoSum(Rels(was));
    forall k | T.PlaceFor(Rels(was), RETRY_MS, k) ensures k == |was| { T.LatestGoesLast(Rels(was), RETRY_MS, k); }
  }

  lemma SendsLast(b: Base)
    requires b.Valid() && b.Short()
    ensures forall k | T.PlaceFor(Rels(b.timers), RETRY_MS, k) :: k == |b.timers|
  {
    GoesLast(b.timers, b.LoopMs());
  }

  lemma AtTheEnd<X>(s: seq<X>, k: nat)
    ensures k == |s| ==> s[..k] == s && s[k..] == []
  {
  }

  lemma NoSum(rels: seq<nat>)
    ensures T.Sum(rels, 0) == 0
  {
  }

  lemma LinkedSooner(was: seq<Entry>, now: seq<Entry>, loop_ms: nat)
    requires Linked(was, loop_ms) && Owners(now) == Owners(was) && Backs(now) == Backs(was)
    requires |now| == |was| && forall i | 0 <= i < |was| :: Rels(now)[i] <= Rels(was)[i]
    ensures Linked(now, loop_ms)
  {
    hide T.Sum, Linked;
    forall i | 0 <= i < |now| ensures EntryOk(now[i], T.Deadlines(Rels(now))[i], loop_ms) {
      LinkedAt(was, loop_ms, i);
      T.SumSmaller(Rels(was), Rels(now), i + 1);
      assert Owners(now)[i] == now[i].owner && Backs(now)[i] == now[i].back;
    }
    LinkedAll(now, loop_ms);
  }

  lemma Inserted<X>(s: seq<X>, k: nat, x: X, t: seq<X>)
    requires k <= |s| && t == s[..k] + [x] + s[k..] && NoDup(s) && x !in s
    ensures NoDup(t) && forall y :: y in t <==> y == x || y in s
  {
    assert s == s[..k] + s[k..];
  }

  lemma Removed<X>(s: seq<X>, k: nat, t: seq<X>)
    requires k < |s| && t == s[..k] + s[k + 1..] && NoDup(s)
    ensures NoDup(t) && forall y :: y in t <==> y != s[k] && y in s
  {
    assert s == s[..k] + [s[k]] + s[k + 1..];
    forall y ensures y in t <==> y != s[k] && y in s {
      if y in s[..k] {
        var i :| 0 <= i < k && s[i] == y;
      }
      if y in s[k + 1..] {
        var i :| 0 <= i < |s| - k - 1 && s[k + 1..][i] == y;
        assert s[k + 1 + i] == y;
      }
    }
  }

  // ---------------------------------------------------------------- the state as a value

  ghost function StateOf(io: Io): IoState
    reads io
  {
    IoState(io.place, io.node, io.retry_count, io.sent, io.completions, io.compl_err, io.compl_val)
  }

  function ListsOf(node: Node): Lists
    reads node
  {
    Lists(node.posted, node.pending, node.keyvals)
  }

  /** The event loop's state. */
  class Base {
    var nodes: seq<Node>
    /** BANO_BASE_FLAG_NEW_NODES */
    const new_nodes: bool
    /** the period of the loop timer, if there is one */
    const timer_ms: Option<uint32>
    /** the timer list, with the back links that bano_list.c leaves out; all other lists only grow at the end */
    var timers: seq<Entry>
    /** whether the loop timer is set */
    var loop_timer: bool
    /** all IOs ever posted */
    ghost var ios: set<Io>

    ghost predicate Valid()
      reads this, nodes, ios
    {
      && NoDup(nodes)
      && (forall i | 0 <= i < |nodes| :: NodeOk(nodes[i], ios))
      && (forall io | io in ios :: IoOk(io, nodes))
      && TimersOk(Owners(timers), ios, loop_timer)
      && QueueOk()
    }

    /** No deadline wraps, the head needs no back link, and no link is missing that an insertion would follow. */
    ghost predicate QueueOk()
      reads this`timers
    {
      && T.Sum(Rels(timers), |timers|) < 0x1_0000_0000
      && (timers != [] ==> timers[0].back)
      && Linked(timers, LoopMs())
    }

    /** Everything there is, as a value. */
    ghost function View(): (s: State)
      reads this, nodes, ios
      ensures s.nodes == nodes && s.timers == timers && s.loop_timer == loop_timer
      ensures s.timer_ms == timer_ms && s.new_nodes == new_nodes && s.ios.Keys == ios
    {
      State(new_nodes, timer_ms, nodes, map n | n in nodes :: ListsOf(n), map io | io in ios :: StateOf(io), timers,
            loop_timer)
    }

    /** The loop timer is not slower than the timers of IOs: main.c asks for one second. */
    predicate Short() {
      timer_ms.Some? ==> timer_ms.value <= RETRY_MS
    }

    function LoopMs(): nat {
      if timer_ms.Some? then timer_ms.value else 0
    }

    constructor (new_nodes: bool, timer_ms: Option<uint32>)
      ensures Valid() && nodes == [] && ios == {} && !loop_timer && timers == []
      ensures this.timer_ms == timer_ms
    {
      this.new_nodes, this.timer_ms := new_nodes, timer_ms;
      nodes, timers, loop_timer, ios := [], [], false, {};
    }

    // -------------------------------------------------------------- timers

    /** The loop of bano_timer_add. */
    method FindPlace(ms: nat) returns (i: nat, ms_sum: nat)
      ensures T.PlaceFor(Rels(timers), ms, i) && ms_sum == T.Sum(Rels(timers), i)
    {
      i, ms_sum := 0, 0;
      while i < |timers|
        invariant i <= |timers| && ms_sum == T.Sum(Rels(timers), i) <= ms
      {
        if ms_sum + timers[i].rel_ms > ms { break; }
        ms_sum := ms_sum + timers[i].rel_ms;
        i := i + 1;
      }
    }

    /** bano_timer_add. The back link that bano_list_add_before follows, if any, is there. */
    method AddTimer(ms: uint32, owner: Io?) returns (ghost k: nat)
      requires QueueOk() && NoDup(Owners(timers)) && owner !in Owners(timers)
      requires if owner == null then timer_ms == Some(ms) else ms == RETRY_MS
      modifies this`timers
      ensures QueueOk()
      ensures NoDup(Owners(timers)) && forall x :: x in Owners(timers) <==> x == owner || x in old(Owners(timers))
      ensures T.PlaceFor(old(Rels(timers)), ms, k) && (k == |old(timers)| || old(timers)[k].back)
      ensures Owners(timers) == old(Owners(timers))[..k] + [owner] + old(Owners(timers))[k..]
      ensures Rels(timers) == T.InsertRel(old(Rels(timers)), ms, k)
      ensures Backs(timers) == L.BackWith(old(Backs(timers)), k)
      ensures timers == Added(old(timers), ms, owner)
    {
      hide T.InsertRel, T.Sum, NoDup, Owners, Rels, Backs, L.BackWith, Linked;
      var i, ms_sum := FindPlace(ms);
      k := i;
      PlaceIs(Rels(timers), ms, k);
      ghost var was := timers;
      timers := WithTimer(timers, ms, ms_sum, i, owner);
      EnteredOwners(was, ms, k, owner, timers);
      EnteredRels(was, ms, k, owner, timers);
      T.InsertSums(Rels(was), ms, k, |timers|);
      FirstBack(was, k, timers);
      if k < |was| { Room(was, ms, k, owner, LoopMs()); }
      LinkedAdd(was, ms, k, owner, timers, LoopMs());
      Inserted(Owners(was), k, owner, Owners(timers));
    }

    /**
     * bano_timer_del of the timer of an IO, or of the loop timer: all timers before it are lost as well
     * if it does not have its back link.
     */
    method DelTimer(owner: Io?) returns (ghost k: nat)
      requires owner in Owners(timers) && NoDup(Owners(timers)) && QueueOk()
      modifies this`timers
      ensures QueueOk()
      ensures k < |old(timers)| && old(timers)[k].owner == owner
      ensures Owners(timers) == L.Left(old(Owners(timers)), old(Backs(timers)), k)
      ensures Rels(timers) == L.Left(old(Rels(timers)), old(Backs(timers)), k)
      ensures Backs(timers) == L.BackLeft(old(Backs(timers)), k)
      ensures old(timers)[k].back ==>
                NoDup(Owners(timers)) && forall x :: x in Owners(timers) <==> x != owner && x in old(Owners(timers))
      ensures timers == Dropped(old(timers), owner)
    {
      hide T.Sum, Rels, Backs, L.Left, L.BackLeft, Linked;
      k := 0;
      var i: nat := 0;
      while timers[i].owner != owner
        invariant i < |timers| && owner in Owners(timers)[i..]
        invariant EntryFrom(timers, owner, 0) == EntryFrom(timers, owner, i)
        decreases |timers| - i
      {
        assert Owners(timers)[i..] == [timers[i].owner] + Owners(timers)[i + 1..];
        i := i + 1;
      }
      k := i;
      ghost var was := timers;
      timers := (if timers[i].back then timers[..i] else []) + Healed(timers[i + 1..]);
      Cut(was, k, timers);
      T.LeftSums(Rels(was), Backs(was), k);
      LinkedDel(was, k, timers, LoopMs());
      LinkPresent(was, k);
      if was[k].back { Removed(Owners(was), k, Owners(timers)); }
    }

    // -------------------------------------------------------------- posting and sending

    /** bano_post_io */
    method PostIo(node: Node, io: Io)
      requires Valid() && node in nodes && io !in ios
      requires io.place == Posted && io.Counted() && io.sent == 0
      modifies this`ios, node`posted, io`node
      ensures Valid() && ios == old(ios) + {io} && io.node == node && node.posted == old(node.posted) + [io]
      ensures View() == Posts(old(View()), node, io, StateOf(io))
    {
      hide QueueOk, Owners, NoDup, NodeOk, IoOk, ListOk, TimersOk, View;
      NodeFacts(this, node);
      node.posted := node.posted + [io];
      io.node := node;
      ios := ios + {io};
      ViewPosted(this, io, node);
      PostedAlso(this, io, node);
      forall i | 0 <= i < |nodes| ensures NodeOk(nodes[i], ios) {
        if nodes[i] != node { OtherNode(this, io, nodes[i]); }
      }
      forall x | x in ios && x != io ensures IoOk(x, nodes) { OtherIo(this, x, node); }
    }

    /** Runs the completion function, if there is one, and frees the IO. */
    method Complete(io: Io, err: nat, val: nat)
      requires io.place != Done && io.completions == 0 && io.sent <= (if io.reply then RETRY_COUNT + 1 else 1)
      modifies io`compl_err, io`compl_val, io`completions, io`place
      ensures io.place == Done && io.Counted()
      ensures io.compl_fn ==> io.compl_err == err && (err == IO_ERR_SUCCESS ==> io.compl_val == val)
      ensures StateOf(io) == Completed(io, old(StateOf(io)), err, val)
    {
      if io.compl_fn {
        io.compl_err := err;
        if err == IO_ERR_SUCCESS { io.compl_val := val; }
        io.completions := io.completions + 1;
      }
      io.place := Done;
    }

    /** post_io for the first posted IO of a node, with a write that succeeds */
    method SendFirst(node: Node)
      requires Valid() && node in nodes && node.posted != []
      modifies this`timers, node`posted, node`pending, node.posted[0]
      ensures Valid()
      ensures node.posted == old(node.posted)[1..]
      ensures var io := old(node.posted[0]);
              && io.sent == old(io.sent) + 1 && io.Measure() < old(io.Measure())
              && (if io.reply then
                    && io.place == Pending && node.pending == old(node.pending) + [io]
                    && (Short() ==> Owners(timers) == old(Owners(timers)) + [io])
                  else io.place == Done && node.pending == old(node.pending) && unchanged(`timers))
      ensures View() == SendsOne(old(View()), node)
    {
      hide View, SendsOne;
      hide Valid, Owners, Rels, Backs, L.BackWith, T.InsertRel, T.PlaceFor, Io.Measure, Io.Counted;
      if node.posted[0].reply {
        ghost var was := timers;
        if Short() { SendsLast(this); }
        ghost var k := AwaitReply(node);
        AtTheEnd(Owners(was), k);
      } else {
        SendOnce(node);
      }
    }

    /** The branch of post_io for an IO that expects a reply. */
    method AwaitReply(node: Node) returns (ghost k: nat)
      requires Valid() && node in nodes && node.posted != [] && node.posted[0].reply
      modifies this`timers, node`posted, node`pending, node.posted[0]
      ensures Valid() && T.PlaceFor(old(Rels(timers)), RETRY_MS, k)
      ensures Owners(timers) == old(Owners(timers))[..k] + [old(node.posted[0])] + old(Owners(timers))[k..]
      ensures Rels(timers) == T.InsertRel(old(Rels(timers)), RETRY_MS, k)
      ensures Backs(timers) == L.BackWith(old(Backs(timers)), k)
      ensures node.posted == old(node.posted)[1..] && node.pending == old(node.pending) + [old(node.posted[0])]
      ensures var io := old(node.posted[0]);
              io.sent == old(io.sent) + 1 && io.Measure() < old(io.Measure()) && io.place == Pending
      ensures View() == SendsOne(old(View()), node)
    {
      hide NoDup, TimersOk, Owners, Rels, Backs, L.BackWith, QueueOk, T.InsertRel, View, Added, Changed, Valid,
           SendsOne;
      var io := node.posted[0];
      ViewAt(this, io, node);
      SendsAsking(View(), node);
      Facts(this, io, node);
      io.sent := io.sent + 1;
      node.pending := node.pending + [io];
      k := AddTimer(io.retry_ms, io);
      io.place := Pending;
      node.posted := node.posted[1..];
      Awaited(this, io, node);
      ViewMoved(this, io, node);
    }

    /** The branch of post_io for an IO that is done once it is written. */
    method SendOnce(node: Node)
      requires Valid() && node in nodes && node.posted != [] && !node.posted[0].reply
      modifies node`posted, node.posted[0]
      ensures Valid()
      ensures node.posted == old(node.posted)[1..]
      ensures var io := old(node.posted[0]);
              io.sent == old(io.sent) + 1 && io.Measure() < old(io.Measure()) && io.place == Done
      ensures View() == SendsOne(old(View()), node)
    {
      hide NoDup, TimersOk, Owners, Rels, QueueOk, View, Changed, Valid;
      var io := node.posted[0];
      ViewAt(this, io, node);
      Facts(this, io, node);
      io.sent := io.sent + 1;
      Complete(io, IO_ERR_SUCCESS, 0);
      node.posted := node.posted[1..];
      SentAway(this, io, node);
      ViewMoved(this, io, node);
    }

    /** write_msg: everything that is posted for the node is sent, in order. */
    method WriteNode(node: Node)
      requires Valid() && node in nodes
      modifies this`timers, node`posted, node`pending, node.posted
      ensures Valid() && node.posted == []
      ensures forall i | 0 <= i < |old(node.posted)| ::
                var io := old(node.posted)[i];
                io.sent == old(io.sent) + 1 && io.Measure() < old(io.Measure())
      ensures forall io | io in ios :: io.Measure() <= old(io.Measure())
      ensures View() == Sends(old(View()), node, |old(node.posted)|)
    {
      hide Valid, Io.Measure, Io.Counted, View, SendsOne, Sends;
      ghost var s := node.posted;
      ghost var n := 0;
      PostedDistinct(this, node);
      while node.posted != []
        invariant Valid() && node in nodes && n <= |s| && node.posted == s[n..]
        invariant forall i | 0 <= i < n :: s[i].sent == old(s[i].sent) + 1 && s[i].Measure() < old(s[i].Measure())
        invariant forall i | n <= i < |s| :: unchanged(s[i])
        invariant Sends(View(), node, |s| - n) == Sends(old(View()), node, |s|)
        decreases |node.posted|
      {
        assert node.posted[0] == s[n];
        SendsStep(this, node, |s| - n);
        SendFirst(node);
        n := n + 1;
      }
      NoSends(View(), node);
    }

    // -------------------------------------------------------------- time

    /** bano_timer_update of the head to the time that select left over */
    method Elapse(left: nat)
      requires Valid() && timers != [] && left <= timers[0].rel_ms
      modifies this`timers
      ensures Valid() && Owners(timers) == old(Owners(timers)) && timers[0].rel_ms == left
      ensures Rels(timers) == old(Rels(timers))[0 := left] && Backs(timers) == old(Backs(timers))
      ensures timers == old(timers)[0 := old(timers)[0].(rel_ms := left)]
      ensures View() == old(View()).(timers := timers)
    {
      hide T.Sum, Linked, View;
      ghost var was := timers;
      timers := timers[0 := timers[0].(rel_ms := left)];
      assert Owners(timers) == Owners(was) && Backs(timers) == Backs(was);
      T.SumSmaller(Rels(was), Rels(timers), |timers|);
      LinkedSooner(was, timers, LoopMs());
      ViewTimers(this);
    }

    /** bano_list_del of an IO from the pending list of its node */
    method RemovePending(node: Node, io: Io)
      requires io in node.pending && NoDup(node.pending)
      modifies node`pending
      ensures NoDup(node.pending) && forall y :: y in node.pending <==> y != io && y in old(node.pending)
      ensures exists k: nat | k < |old(node.pending)| ::
                old(node.pending)[k] == io && node.pending == old(node.pending)[..k] + old(node.pending)[k + 1..]
      ensures node.pending == Without(old(node.pending), io)
    {
      var k: nat := 0;
      while node.pending[k] != io
        invariant k < |node.pending| && forall j | 0 <= j < k :: node.pending[j] != io
        invariant IndexFrom(node.pending, io, 0) == IndexFrom(node.pending, io, k)
        decreases |node.pending| - k
      {
        assert k + 1 < |node.pending|;
        k := k + 1;
      }
      ghost var s := node.pending;
      node.pending := node.pending[..k] + node.pending[k + 1..];
      Removed(s, k, node.pending);
    }

    /** The timer branch of bano_start_loop for the timer of a pending IO: retry, or give up. */
    method ExpireIo(io: Io)
      requires Valid() && timers != [] && timers[0].owner == io && timers[0].rel_ms == 0
      modifies this`timers, io, io.node`posted, io.node`pending
      ensures Valid() && io.node == old(io.node) && io.Measure() < old(io.Measure())
      ensures io.sent == old(io.sent)
      ensures if old(io.retry_count) == 0 then
                io.place == Done && (io.compl_fn ==> io.compl_err == IO_ERR_TIMEOUT) && unchanged(io.node`posted)
              else
                io.place == Posted && io.retry_count == old(io.retry_count) - 1
                && io.completions == old(io.completions) && io.node.posted == old(io.node.posted) + [io]
      ensures forall x :: x in Owners(timers) <==> x != io && x in old(Owners(timers))
      ensures View() == Expires(old(View()))
    {
      hide NoDup, TimersOk, Owners, Rels, Backs, QueueOk, L.Left, L.BackLeft, View, Dropped, Without,
           Changed, Valid;
      TimerFacts(this, io);
      var node := io.node;
      ViewAt(this, io, node);
      Facts(this, io, node);
      if io.retry_count == 0 {
        io.retry_count := 0xffff_ffff;
        Complete(io, IO_ERR_TIMEOUT, 0);
      } else {
        io.retry_count := io.retry_count - 1;
        node.posted := node.posted + [io];
        io.place := Posted;
      }
      RemovePending(node, io);
      ghost var k := DelTimer(io);
      FirstOnly(old(timers), k);
      TimedOut(this, io, node);
      ViewMoved(this, io, node);
    }

    /** The loop timer is set again whenever it is not running. */
    method SetLoopTimer() returns (ghost k: nat)
      requires Valid() && !loop_timer && timer_ms.Some?
      modifies this`timers, this`loop_timer
      ensures Valid() && loop_timer
      ensures T.PlaceFor(old(Rels(timers)), timer_ms.value, k)
      ensures Owners(timers) == old(Owners(timers))[..k] + [null] + old(Owners(timers))[k..]
      ensures Rels(timers) == T.InsertRel(old(Rels(timers)), timer_ms.value, k)
      ensures Backs(timers) == L.BackWith(old(Backs(timers)), k)
      ensures View() == Ticked(old(View()))
    {
      hide NoDup, Owners, Rels, Backs, L.BackWith, T.InsertRel, QueueOk, Added, View;
      TimersNoDup(this);
      k := AddTimer(timer_ms.value, null);
      loop_timer := true;
      LoopTimerChanged(old(Owners(timers)), Owners(timers), ios, false, true);
      ViewTimers(this);
    }

    /** The timer branch of bano_start_loop for the loop timer. */
    method ExpireLoopTimer()
      requires Valid() && timers != [] && timers[0].owner == null && timers[0].rel_ms == 0
      modifies this`timers, this`loop_timer
      ensures Valid() && !loop_timer
      ensures forall x :: x in Owners(timers) <==> x != null && x in old(Owners(timers))
      ensures View() == Expires(old(View()))
    {
      hide Dropped, View;
      hide NoDup, Rels, Backs, L.Left, L.BackLeft, QueueOk;
      TimersNoDup(this);
      ghost var k := DelTimer(null);
      loop_timer := false;
      FirstOnly(old(timers), k);
      LoopTimerChanged(old(Owners(timers)), Owners(timers), ios, true, false);
      ViewTimers(this);
    }

    // -------------------------------------------------------------- messages

    /** find_pending_io: the first pending IO that the message answers; it is taken off the list. */
    method FindPendingIo(node: Node, msg: Msg) returns (io: Io?)
      requires NoDup(node.pending)
      modifies node`pending
      ensures io == null ==> node.pending == old(node.pending) && forall x | x in node.pending :: !Answers(node, msg, x)
      ensures io != null ==>
                && io in old(node.pending) && Answers(node, msg, io) && NoDup(node.pending)
                && (forall y :: y in node.pending <==> y != io && y in old(node.pending))
                && (exists k: nat | k < |old(node.pending)| ::
                      && old(node.pending)[k] == io
                      && node.pending == old(node.pending)[..k] + old(node.pending)[k + 1..]
                      && forall x | x in old(node.pending)[..k] :: !Answers(node, msg, x))
      ensures var k := AnswerFrom(node, old(node.pending), msg, 0);
              if k == |old(node.pending)| then io == null
              else io == old(node.pending)[k] && node.pending == old(node.pending)[..k] + old(node.pending)[k + 1..]
    {
      var k: nat := 0;
      while k < |node.pending| && !Answers(node, msg, node.pending[k])
        invariant k <= |node.pending| && forall x | x in node.pending[..k] :: !Answers(node, msg, x)
        invariant AnswerFrom(node, node.pending, msg, 0) == AnswerFrom(node, node.pending, msg, k)
      {
        assert node.pending[..k + 1] == node.pending[..k] + [node.pending[k]];
        k := k + 1;
      }
      if k == |node.pending| {
        assert node.pending[..k] == node.pending;
        return null;
      }
      io := node.pending[k];
      ghost var s := node.pending;
      node.pending := node.pending[..k] + node.pending[k + 1..];
      Removed(s, k, node.pending);
    }

    /**
     * The reply part of handle_set_msg. If the timer of the answered IO has no back link, the timers before
     * it are lost; under a short loop timer that never happens.
     */
    method HandleReply(node: Node, msg: Msg) returns (io: Io?, ghost k: nat)
      requires Valid() && node in nodes
      modifies this`timers, node`pending, node.pending
      ensures io == null || Short() ==> Valid()
      ensures io == null ==> node.pending == old(node.pending) && unchanged(`timers) && unchanged(node.pending)
      ensures io == null ==> forall x | x in node.pending :: !Answers(node, msg, x)
      ensures io != null ==>
                && io in old(node.pending) && Answers(node, msg, io)
                && io.place == Done && io.Measure() < old(io.Measure())
                && (io.compl_fn ==> io.compl_err == (if msg.err then IO_ERR_FAILURE else IO_ERR_SUCCESS))
                && (io.compl_fn && !msg.err ==> io.compl_val == msg.val)
                && (forall y | y in old(node.pending) && y != io :: unchanged(y))
                && (forall y :: y in node.pending <==> y != io && y in old(node.pending))
      ensures io != null ==>
                && k < |old(timers)| && old(timers)[k].owner == io
                && Owners(timers) == L.Left(old(Owners(timers)), old(Backs(timers)), k)
      ensures View() == Replies(old(View()), node, msg)
    {
      hide NoDup, TimersOk, Owners, Rels, Backs, QueueOk, L.Left, L.BackLeft, Answers, View, Dropped, AnswerFrom,
           Changed, Valid;
      PendingDistinct(this, node);
      ViewLists(this, node);
      io := FindPendingIo(node, msg);
      k := 0;
      if io != null {
        OldFacts(this, io, node, old(node.pending));
        Complete(io, if msg.err then IO_ERR_FAILURE else IO_ERR_SUCCESS, msg.val);
        k := DelTimer(io);
        ViewMoved(this, io, node);
        if Short() { Replied(this, io, node, k); }
      }
    }

    /** The part of handle_set_msg that keeps the value of a key that the node has. */
    method StoreValue(node: Node, msg: Msg)
      requires Valid() && node in nodes
      modifies node`keyvals
      ensures Valid()
      ensures node.keyvals == if !msg.err && (node.nodl.None? || msg.key in node.nodl.value)
                              then old(node.keyvals)[msg.key := msg.val] else old(node.keyvals)
      ensures View() == if !msg.err && (node.nodl.None? || msg.key in node.nodl.value)
                        then WithLists(old(View()), node, ListsOf(node)) else old(View())
      ensures ListsAt(old(View()), node) == old(ListsOf(node))
    {
      hide NoDup, TimersOk, Owners, Rels, QueueOk, View;
      if !msg.err {
        if node.nodl.None? || msg.key in node.nodl.value {
          node.keyvals := node.keyvals[msg.key := msg.val];
        }
      }
      ViewKeyvals(this, node);
    }

    /** handle_set_msg, without the callbacks of the application */
    method HandleSetMsg(node: Node, msg: Msg)
      requires Valid() && Short() && node in nodes
      modifies this`timers, node`pending, node`keyvals, node.pending
      ensures Valid()
      ensures node.keyvals == if !msg.err && (node.nodl.None? || msg.key in node.nodl.value)
                              then old(node.keyvals)[msg.key := msg.val] else old(node.keyvals)
      ensures forall io | io in ios :: io.Measure() <= old(io.Measure())
      ensures !msg.reply ==> unchanged(`timers) && node.pending == old(node.pending)
      ensures View() == Sets(old(View()), node, msg)
    {
      hide NoDup, TimersOk, Owners, Rels, QueueOk, View, Replies, Valid;
      StoreValue(node, msg);
      PendingIos(this, node);
      if msg.reply {
        var io;
        ghost var k;
        label before:
        io, k := HandleReply(node, msg);
        forall y | y in ios ensures y.Measure() <= old(y.Measure()) {
          assert old@before(y.Measure()) == old(y.Measure());
          if y != io && y in old@before(node.pending) { assert unchanged@before(y); }
        }
      }
    }

    /** find_node_by_addr */
    method FindNode(addr: nat) returns (node: Node?)
      ensures node == null ==> forall i | 0 <= i < |nodes| :: nodes[i].addr != addr
      ensures node != null ==> exists i :: 0 <= i < |nodes| && nodes[i] == node && node.addr == addr
                                           && forall j | 0 <= j < i :: nodes[j].addr != addr
      ensures node == NodeOf(View(), addr)
    {
      for i := 0 to |nodes|
        invariant forall j | 0 <= j < i :: nodes[j].addr != addr
        invariant NodeFrom(nodes, addr, 0) == NodeFrom(nodes, addr, i)
      {
        if nodes[i].addr == addr { return nodes[i]; }
      }
      return null;
    }

    /** A node that the base did not know is added at the end. */
    method AddNode(node: Node)
      requires Valid() && node !in nodes && node.posted == node.pending == [] && node.keyvals == map[]
      modifies this`nodes
      ensures Valid() && nodes == old(nodes) + [node]
      ensures View() == WithNode(old(View()), node)
    {
      hide View, WithNode, QueueOk, TimersOk, Owners, Io.Counted, ListOk, Valid;
      nodes := nodes + [node];
      NodeAdded(this, node);
      ViewAdded(this, node);
    }

    /** handle_bano_msg for a deciphered message */
    method HandleMsg(msg: Msg)
      requires Valid() && Short()
      modifies this, nodes, ios
      ensures Valid() && ios == old(ios)
      ensures nodes == old(nodes) || (new_nodes && |nodes| == |old(nodes)| + 1 && nodes[..|old(nodes)|] == old(nodes)
                                      && fresh(nodes[|old(nodes)|]) && nodes[|old(nodes)|].addr == msg.saddr)
      ensures forall io | io in ios :: io.Measure() <= old(io.Measure())
      ensures nodes == old(nodes) <==> NodeOf(old(View()), msg.saddr) != null || !new_nodes
      ensures nodes != old(nodes) ==> Last(nodes) !in old(nodes) && Last(nodes).nodl.None?
      ensures View() == Receives(old(View()), msg, if nodes == old(nodes) then null else Last(nodes))
    {
      hide NoDup, TimersOk, Owners, Rels, QueueOk, View, Sets, WithNode, NodeOf;
      var node := FindNode(msg.saddr);
      if node == null {
        if !new_nodes { return; }
        node := new Node(msg.saddr, None);
        AddNode(node);
      }
      if msg.op == OP_SET {
        PendingIos(this, node);
        HandleSetMsg(node, msg);
      }
    }

    /** The timer branch of bano_start_loop. */
    method Expire()
      requires Valid() && timers != [] && timers[0].rel_ms == 0
      modifies this`timers, this`loop_timer, nodes, ios
      ensures Valid() && ios == old(ios) && nodes == old(nodes)
      ensures forall io | io in ios :: io.Measure() <= old(io.Measure())
      ensures View() == Expires(old(View()))
    {
      hide View, Expires;
      var io := timers[0].owner;
      if io != null {
        assert Owners(timers)[0] == io;
        TimerFacts(this, io);
        ExpireIo(io);
      } else {
        ExpireLoopTimer();
      }
    }
  }

  // ---------------------------------------------------------------- refinement

  /** There is only one place for a new timer. */
  lemma PlaceIs(rels: seq<nat>, ms: nat, k: nat)
    requires T.PlaceFor(rels, ms, k)
    ensures k == PlaceFrom(rels, ms, 0)
  {
    var j := PlaceFrom(rels, ms, 0);
    if j < k { T.SumMono(rels, j + 1, k); }
    if k < j { T.SumMono(rels, k + 1, j); }
  }

  lemma ViewAt(b: Base, io: Io, node: Node)
    ensures node in b.nodes ==> ListsAt(b.View(), node) == ListsOf(node)
    ensures io in b.ios ==> IoAt(b.View(), io) == StateOf(io)
  {
  }

  lemma SendsAsking(s: State, node: Node)
    requires ListsAt(s, node).posted != [] && ListsAt(s, node).posted[0].reply
    ensures var l := ListsAt(s, node);
            var v := IoAt(s, l.posted[0]);
            SendsOne(s, node) ==
            Changed(s, l.posted[0], v.(place := Pending, sent := v.sent + 1), node,
                    Lists(l.posted[1..], l.pending + [l.posted[0]], l.keyvals), Added(s.timers, RETRY_MS, l.posted[0]))
  {
  }

  /** What one IO, its node and the timers have become is all that has changed. */
  twostate lemma ViewMoved(b: Base, new io: Io, new node: Node)
    requires b.nodes == old(b.nodes) && b.ios == old(b.ios) && io in b.ios && node in b.nodes
    requires b.loop_timer == old(b.loop_timer)
    requires forall x | x in b.ios && x != io :: unchanged(x)
    requires forall n | n in b.nodes && n != node :: unchanged(n)
    ensures b.View() == Changed(old(b.View()), io, StateOf(io), node, ListsOf(node), b.timers)
  {
    var t := Changed(old(b.View()), io, StateOf(io), node, ListsOf(node), b.timers);
    assert b.View().lists == t.lists;
    assert b.View().ios == t.ios;
  }

  /** Only the timers have changed. */
  twostate lemma ViewTimers(b: Base)
    requires b.nodes == old(b.nodes) && b.ios == old(b.ios)
    requires forall x | x in b.ios :: unchanged(x)
    requires forall n | n in b.nodes :: unchanged(n)
    ensures b.View() == old(b.View()).(timers := b.timers, loop_timer := b.loop_timer)
  {
    assert b.View().lists == old(b.View()).lists;
    assert b.View().ios == old(b.View()).ios;
  }

  /** A node has been added. */
  twostate lemma ViewAdded(b: Base, new node: Node)
    requires b.nodes == old(b.nodes) + [node] && b.ios == old(b.ios) && node !in old(b.nodes)
    requires b.timers == old(b.timers) && b.loop_timer == old(b.loop_timer)
    requires forall x | x in b.ios :: unchanged(x)
    requires forall n | n in old(b.nodes) :: unchanged(n)
    requires node.posted == node.pending == [] && node.keyvals == map[]
    ensures b.View() == WithNode(old(b.View()), node)
  {
    assert b.View().lists == WithNode(old(b.View()), node).lists;
    assert b.View().ios == old(b.View()).ios;
  }

  lemma ViewLists(b: Base, node: Node)
    ensures node in b.nodes ==> ListsAt(b.View(), node) == ListsOf(node)
    ensures forall io | io in b.ios :: IoAt(b.View(), io) == StateOf(io)
  {
  }

  twostate lemma ViewPosted(b: Base, new io: Io, new node: Node)
    requires b.nodes == old(b.nodes) && b.ios == old(b.ios) + {io} && io !in old(b.ios) && node in b.nodes
    requires forall x | x in old(b.ios) :: unchanged(x)
    requires forall n | n in b.nodes && n != node :: unchanged(n)
    requires node.posted == old(node.posted) + [io] && node.pending == old(node.pending)
    requires node.keyvals == old(node.keyvals) && b.timers == old(b.timers) && b.loop_timer == old(b.loop_timer)
    ensures b.View() == Posts(old(b.View()), node, io, StateOf(io))
  {
    assert b.View().lists == Posts(old(b.View()), node, io, StateOf(io)).lists;
    assert b.View().ios == Posts(old(b.View()), node, io, StateOf(io)).ios;
  }

  /** Only the values of a node have changed. */
  twostate lemma ViewKeyvals(b: Base, new node: Node)
    requires b.nodes == old(b.nodes) && b.ios == old(b.ios) && node in b.nodes
    requires forall x | x in b.ios :: unchanged(x)
    requires forall n | n in b.nodes && n != node :: unchanged(n)
    requires b.timers == old(b.timers) && b.loop_timer == old(b.loop_timer)
    ensures b.View() == WithLists(old(b.View()), node, ListsOf(node))
    ensures ListsOf(node) == old(ListsOf(node)) ==> b.View() == old(b.View())
    ensures ListsAt(old(b.View()), node) == old(ListsOf(node))
  {
    assert b.View().ios == old(b.View()).ios;
    assert b.View().lists == WithLists(old(b.View()), node, ListsOf(node)).lists;
  }

  lemma SendsStep(b: Base, node: Node, n: nat)
    requires node in b.nodes && node.posted != [] && n > 0
    ensures ListsAt(b.View(), node).posted != []
    ensures Sends(b.View(), node, n) == Sends(SendsOne(b.View(), node), node, n - 1)
  {
    hide Base.View, SendsOne;
    ViewLists(b, node);
  }

  lemma NoSends(s: State, node: Node)
    ensures Sends(s, node, 0) == s
  {
  }

  /** What the invariant says about one IO. */
  lemma Facts(b: Base, io: Io, node: Node)
    requires b.Valid() && node in b.nodes && (io in node.posted || io in node.pending)
    ensures io in b.ios && io.node == node && io.Counted()
    ensures io in node.posted ==> io.place == Posted && io !in Owners(b.timers)
    ensures io in node.pending ==> io.place == Pending && io in Owners(b.timers)
    ensures TimersOk(Owners(b.timers), b.ios, b.loop_timer) && NoDup(Owners(b.timers))
    ensures ListOk(node, node.posted, b.ios, Posted) && ListOk(node, node.pending, b.ios, Pending)
    ensures NoDup(node.posted) && NoDup(node.pending) && b.QueueOk()
  {
    assert NodeOk(node, b.ios);
  }

  lemma TimerFacts(b: Base, io: Io)
    requires b.Valid() && io in Owners(b.timers)
    ensures io in b.ios && io.place == Pending && io.node in b.nodes && io in io.node.pending
  {
  }

  lemma TimersNoDup(b: Base)
    requires b.Valid()
    ensures NoDup(Owners(b.timers)) && (b.loop_timer <==> null in Owners(b.timers))
    ensures b.QueueOk() && (b.timers != [] ==> b.timers[0].back)
  {
  }

  lemma PendingDistinct(b: Base, node: Node)
    requires b.Valid() && node in b.nodes
    ensures NoDup(node.pending)
  {
    assert NodeOk(node, b.ios);
  }

  /** The timers after bano_timer_del. */
  lemma Cut(was: seq<Entry>, k: nat, now: seq<Entry>)
    requires k < |was| && now == (if was[k].back then was[..k] else []) + Healed(was[k + 1..])
    ensures Owners(now) == L.Left(Owners(was), Backs(was), k) && Rels(now) == L.Left(Rels(was), Backs(was), k)
    ensures Backs(now) == L.BackLeft(Backs(was), k) && |now| == |L.Left(Rels(was), Backs(was), k)|
    ensures was != [] && was[0].back && now != [] ==> now[0].back
  {
    hide L.Left, L.BackLeft, L.Before, Healed;
    L.LeftAt(Owners(was), Backs(was), k);
    L.LeftAt(Rels(was), Backs(was), k);
    CutSize(was, k, now);
    forall i | 0 <= i < |now|
      ensures Owners(now)[i] == L.Left(Owners(was), Backs(was), k)[i]
      ensures Rels(now)[i] == L.Left(Rels(was), Backs(was), k)[i]
      ensures Backs(now)[i] == L.BackLeft(Backs(was), k)[i]
    {
      L.BackLeftAt(Backs(was), k, i);
      CutAt(was, k, now, i);
    }
    if |now| > 0 { CutAt(was, k, now, 0); BeforeHead(Backs(was), k); }
  }

  lemma BeforeHead(b: seq<bool>, k: nat)
    requires k < |b|
    ensures L.Before(b, k, 0) == 0 || L.Before(b, k, 0) == k + 1
  {
  }

  lemma CutSize(was: seq<Entry>, k: nat, now: seq<Entry>)
    requires k < |was| && now == (if was[k].back then was[..k] else []) + Healed(was[k + 1..])
    ensures |now| == if was[k].back then |was| - 1 else |was| - k - 1
  {
  }

  lemma CutAt(was: seq<Entry>, k: nat, now: seq<Entry>, i: nat)
    requires k < |was| && now == (if was[k].back then was[..k] else []) + Healed(was[k + 1..]) && i < |now|
    ensures var j := L.Before(Backs(was), k, i);
            j < |was| && now[i] == if j == k + 1 then was[j].(back := true) else was[j]
  {
  }

  /** The head has its back link, or needs none. */
  lemma FirstOnly(timers: seq<Entry>, k: nat)
    requires k < |timers| && NoDup(Owners(timers)) && timers[k].owner == timers[0].owner && timers[0].back
    ensures timers[k].back
  {
    assert Owners(timers)[k] == Owners(timers)[0];
  }

  twostate lemma LinkedOwner(b: Base, new timers: seq<Entry>, new k: nat)
    requires old(b.QueueOk()) && b.Short() && timers == old(b.timers) && k < |timers| && timers[k].owner != null
    ensures timers[k].back
  {
  }

  lemma LinkPresent(was: seq<Entry>, k: nat)
    requires k < |was|
    ensures was[k].back ==> L.Left(Owners(was), Backs(was), k) == Owners(was)[..k] + Owners(was)[k + 1..]
  {
  }

  lemma FirstBack(was: seq<Entry>, k: nat, now: seq<Entry>)
    requires k <= |was| && |now| == |was| + 1 && Backs(now) == L.BackWith(Backs(was), k) && (was != [] ==> was[0].back)
    ensures now[0].back
  {
    assert now[0].back == Backs(now)[0];
  }

  /** The same facts when the IO has already been taken off its list. */
  twostate lemma OldFacts(b: Base, new io: Io, new node: Node, new pending: seq<Io>)
    requires old(b.Valid()) && node in old(b.nodes) && pending == old(node.pending) && io in pending
    ensures io in old(b.ios) && old(io.node) == node && old(io.place) == Pending && old(io.Counted())
    ensures io in old(Owners(b.timers)) && NoDup(old(Owners(b.timers)))
    ensures old(TimersOk(Owners(b.timers), b.ios, b.loop_timer)) && old(b.QueueOk())
    ensures old(ListOk(node, node.posted, b.ios, Posted)) && old(ListOk(node, pending, b.ios, Pending))
  {
    assert old(NodeOk(node, b.ios));
  }

  lemma LoopTimerChanged(a: seq<Io?>, b: seq<Io?>, ios: set<Io>, from: bool, to: bool)
    requires TimersOk(a, ios, from) && NoDup(b) && from != to
    requires forall x :: x in b <==> if x == null then to else x in a
    ensures TimersOk(b, ios, to)
  {
    forall i | 0 <= i < |b| && b[i] != null ensures b[i] in ios && b[i].place == Pending {
      assert b[i] in b;
    }
  }

  lemma PendingIos(b: Base, node: Node)
    requires b.Valid() && node in b.nodes
    ensures forall x | x in node.pending :: x in b.ios
    ensures forall x | x in node.posted :: x in b.ios
  {
    assert NodeOk(node, b.ios);
  }

  lemma PostedDistinct(b: Base, node: Node)
    requires b.Valid() && node in b.nodes
    ensures NoDup(node.posted)
  {
    assert NodeOk(node, b.ios);
  }

  twostate lemma TimerRemoved(new a: seq<Io?>, new b: seq<Io?>, ios: set<Io>, new io: Io, new loop_timer: bool)
    requires old(allocated(a)) && old(TimersOk(a, ios, loop_timer)) && io in ios && io.place != Pending
    requires forall x | x in ios && x != io :: x.place == old(x.place)
    requires NoDup(b) && forall x :: x in b <==> x != io && x in a
    ensures TimersOk(b, ios, loop_timer)
  {
    forall i | 0 <= i < |b| && b[i] != null ensures b[i] in ios && b[i].place == Pending {
      assert b[i] in b;
    }
  }

  lemma ListFront(s: seq<Io>)
    requires s != [] && NoDup(s)
    ensures NoDup(s[1..]) && forall y :: y in s[1..] <==> y != s[0] && y in s
  {
    assert s[..0] + s[1..] == s[1..];
    Removed(s, 0, s[1..]);
  }

  lemma ListBack(s: seq<Io>, io: Io)
    requires NoDup(s) && io !in s
    ensures NoDup(s + [io]) && forall y :: y in s + [io] <==> y == io || y in s
  {
    assert s[..|s|] + [io] + s[|s|..] == s + [io];
    Inserted(s, |s|, io, s + [io]);
  }

  twostate lemma TimerAdded(new a: seq<Io?>, new b: seq<Io?>, ios: set<Io>, new io: Io, new loop_timer: bool)
    requires old(allocated(a)) && old(TimersOk(a, ios, loop_timer)) && io in ios && io.place == Pending
    requires forall x | x in ios && x != io :: x.place == old(x.place)
    requires NoDup(b) && forall x :: x in b <==> x == io || x in a
    ensures TimersOk(b, ios, loop_timer)
  {
    forall i | 0 <= i < |b| && b[i] != null ensures b[i] in ios && b[i].place == Pending {
      assert b[i] in b;
    }
  }

  /** A node without any IOs has been added. */
  twostate lemma NodeAdded(b: Base, new node: Node)
    requires old(b.Valid()) && b.nodes == old(b.nodes) + [node] && node !in old(b.nodes)
    requires b.ios == old(b.ios) && b.timers == old(b.timers) && b.loop_timer == old(b.loop_timer)
    requires node.posted == node.pending == [] && forall x | x in b.ios :: unchanged(x)
    requires forall n | n in old(b.nodes) :: unchanged(n)
    ensures b.Valid()
  {
    hide Base.QueueOk, TimersOk, Owners, Io.Counted;
    forall i | 0 <= i < |b.nodes| ensures NodeOk(b.nodes[i], b.ios) {
      if i < |old(b.nodes)| {
        SameNode(b, b.nodes[i]);
      } else {
        assert b.nodes[i] == node;
      }
    }
    forall io | io in b.ios ensures IoOk(io, b.nodes) {
      assert old(IoOk(io, b.nodes));
    }
    assert old(TimersOk(Owners(b.timers), b.ios, b.loop_timer));
    NoDupSnoc(old(b.nodes), node);
  }

  /** A node and IOs that have not changed. */
  twostate lemma SameNode(b: Base, new n: Node)
    requires old(b.Valid()) && n in old(b.nodes) && unchanged(n) && b.ios == old(b.ios)
    requires forall x | x in b.ios :: unchanged(x)
    ensures NodeOk(n, b.ios)
  {
    hide NoDup;
    assert old(NodeOk(n, b.ios));
  }

  lemma NoDupSnoc<X>(s: seq<X>, x: X)
    requires NoDup(s) && x !in s
    ensures NoDup(s + [x])
  {
  }

  /** A pending IO whose timer is gone is done or posted again. */
  twostate lemma TimedOut(b: Base, new io: Io, new node: Node)
    requires old(b.Valid()) && b.nodes == old(b.nodes) && b.ios == old(b.ios) && b.loop_timer == old(b.loop_timer)
    requires node in b.nodes && io in old(node.pending)
    requires if io.place == Done then node.posted == old(node.posted)
             else io.place == Posted && node.posted == old(node.posted) + [io]
    requires NoDup(node.pending) && forall y :: y in node.pending <==> y != io && y in old(node.pending)
    requires forall x | x in b.ios && x != io :: unchanged(x)
    requires forall n | n in b.nodes && n != node :: n.posted == old(n.posted) && n.pending == old(n.pending)
    requires io.node == old(io.node) && io.Counted() && b.QueueOk()
    requires NoDup(Owners(b.timers)) && forall x :: x in Owners(b.timers) <==> x != io && x in old(Owners(b.timers))
    ensures b.Valid()
  {
    hide TimersOk, Owners, NoDup, Base.QueueOk, Io.Counted;
    OldFacts(b, io, node, old(node.pending));
    NotPosted(b, io, node);
    ListBack(old(node.posted), io);
    forall i | 0 <= i < |node.pending|
      ensures node.pending[i] in b.ios && node.pending[i].place == Pending && node.pending[i].node == node
    {
      assert node.pending[i] in node.pending && node.pending[i] in old(node.pending);
    }
    TimerRemoved(old(Owners(b.timers)), Owners(b.timers), b.ios, io, b.loop_timer);
    Moved(b, io, node);
  }

  twostate lemma NotPosted(b: Base, new io: Io, new node: Node)
    requires old(b.Valid()) && node in old(b.nodes) && io in old(node.pending)
    ensures io !in old(node.posted) && NoDup(old(node.posted))
  {
    assert old(NodeOk(node, b.ios));
  }

  /** A pending IO is done, and so is its timer. */
  twostate lemma Replied(b: Base, new io: Io, new node: Node, new k: nat)
    requires old(b.Valid()) && b.nodes == old(b.nodes) && b.ios == old(b.ios) && b.loop_timer == old(b.loop_timer)
    requires b.Short() && node in b.nodes && io in old(node.pending) && node.posted == old(node.posted)
    requires NoDup(node.pending) && forall y :: y in node.pending <==> y != io && y in old(node.pending)
    requires forall x | x in b.ios && x != io :: unchanged(x)
    requires forall n | n in b.nodes && n != node :: n.posted == old(n.posted) && n.pending == old(n.pending)
    requires io.node == old(io.node) && io.place == Done && io.Counted() && b.QueueOk()
    requires k < |old(b.timers)| && old(b.timers)[k].owner == io
    requires old(b.timers)[k].back ==>
               NoDup(Owners(b.timers)) && forall x :: x in Owners(b.timers) <==> x != io && x in old(Owners(b.timers))
    ensures b.Valid()
  {
    hide TimersOk, Owners, NoDup;
    OldFacts(b, io, node, old(node.pending));
    LinkedOwner(b, old(b.timers), k);
    forall i | 0 <= i < |node.pending|
      ensures node.pending[i] in b.ios && node.pending[i].place == Pending && node.pending[i].node == node
    {
      assert node.pending[i] in node.pending && node.pending[i] in old(node.pending);
    }
    TimerRemoved(old(Owners(b.timers)), Owners(b.timers), b.ios, io, b.loop_timer);
    Moved(b, io, node);
  }

  /** An IO has moved from the one list of its node to the other, with a timer. */
  twostate lemma Awaited(b: Base, new io: Io, new node: Node)
    requires old(b.Valid()) && b.nodes == old(b.nodes) && b.ios == old(b.ios) && b.loop_timer == old(b.loop_timer)
    requires node in b.nodes && old(node.posted) != [] && io == old(node.posted[0])
    requires node.posted == old(node.posted)[1..] && node.pending == old(node.pending) + [io]
    requires forall x | x in b.ios && x != io :: unchanged(x)
    requires forall n | n in b.nodes && n != node :: n.posted == old(n.posted) && n.pending == old(n.pending)
    requires io.node == old(io.node) && io.place == Pending && io.Counted() && b.QueueOk()
    requires NoDup(Owners(b.timers)) && forall x :: x in Owners(b.timers) <==> x == io || x in old(Owners(b.timers))
    ensures b.Valid()
  {
    hide TimersOk, Owners, Base.QueueOk, NoDup;
    PostedHead(b, io, node);
    ListFront(old(node.posted));
    ListBack(old(node.pending), io);
    TimerAdded(old(Owners(b.timers)), Owners(b.timers), b.ios, io, b.loop_timer);
    Moved(b, io, node);
  }

  /** An IO is done once it is sent. */
  twostate lemma SentAway(b: Base, new io: Io, new node: Node)
    requires old(b.Valid()) && b.nodes == old(b.nodes) && b.ios == old(b.ios) && b.loop_timer == old(b.loop_timer)
    requires b.timers == old(b.timers) && node in b.nodes && old(node.posted) != [] && io == old(node.posted[0])
    requires node.posted == old(node.posted)[1..] && node.pending == old(node.pending)
    requires forall x | x in b.ios && x != io :: unchanged(x)
    requires forall n | n in b.nodes && n != node :: n.posted == old(n.posted) && n.pending == old(n.pending)
    requires io.node == old(io.node) && io.place == Done && io.Counted()
    ensures b.Valid()
  {
    hide TimersOk, Owners, Base.QueueOk, NoDup, Io.Counted;
    PostedHead(b, io, node);
    ListFront(old(node.posted));
    TimerKept(Owners(b.timers), b.ios, io, b.loop_timer);
    Moved(b, io, node);
  }

  twostate lemma PostedHead(b: Base, new io: Io, new node: Node)
    requires old(b.Valid()) && node in old(b.nodes) && old(node.posted) != [] && io == old(node.posted[0])
    ensures io in old(b.ios) && old(io.node) == node && io !in old(node.pending) && old(io.place) == Posted
    ensures old(b.QueueOk())
    ensures old(TimersOk(Owners(b.timers), b.ios, b.loop_timer))
    ensures NoDup(old(node.posted)) && NoDup(old(node.pending))
    ensures old(ListOk(node, node.posted, b.ios, Posted)) && old(ListOk(node, node.pending, b.ios, Pending))
  {
    assert old(NodeOk(node, b.ios));
  }

  twostate lemma TimerKept(new a: seq<Io?>, ios: set<Io>, new io: Io, new loop_timer: bool)
    requires old(allocated(a)) && old(TimersOk(a, ios, loop_timer)) && io in ios && old(io.place) != Pending
    requires io.place != Pending
    requires forall x | x in ios && x != io :: x.place == old(x.place)
    ensures TimersOk(a, ios, loop_timer)
  {
  }

  /** One IO has moved; the rest is as before. */
  twostate lemma Moved(b: Base, new io: Io, new node: Node)
    requires old(b.Valid()) && b.nodes == old(b.nodes) && b.ios == old(b.ios) && io in b.ios && node in b.nodes
    requires io.node == old(io.node) == node
    requires forall x | x in b.ios && x != io :: unchanged(x)
    requires forall n | n in b.nodes && n != node :: n.posted == old(n.posted) && n.pending == old(n.pending)
    requires ListOk(node, node.posted, b.ios, Posted) && ListOk(node, node.pending, b.ios, Pending)
    requires forall x | x in b.ios && x != io ::
               (x in node.posted <==> x in old(node.posted)) && (x in node.pending <==> x in old(node.pending))
    requires IoOk(io, b.nodes)
    requires TimersOk(Owners(b.timers), b.ios, b.loop_timer) && b.QueueOk()
    ensures b.Valid()
  {
    hide NoDup, TimersOk, Base.QueueOk, Owners, ListOk, IoOk;
    forall i | 0 <= i < |b.nodes| ensures NodeOk(b.nodes[i], b.ios) {
      if b.nodes[i] != node { OtherNode(b, io, b.nodes[i]); }
    }
    forall x | x in b.ios ensures IoOk(x, b.nodes) {
      if x != io { OtherIo(b, x, node); }
    }
  }

  /** What bano_post_io does to the lists of its node, and to the timers. */
  twostate lemma PostedAlso(b: Base, new io: Io, new node: Node)
    requires node in b.nodes && b.nodes == old(b.nodes) && b.ios == old(b.ios) + {io} && io !in old(b.ios)
    requires old(NodeOk(node, b.ios)) && old(TimersOk(Owners(b.timers), b.ios, b.loop_timer))
    requires b.timers == old(b.timers) && b.loop_timer == old(b.loop_timer)
    requires forall x | x in old(b.ios) :: unchanged(x)
    requires node.posted == old(node.posted) + [io] && node.pending == old(node.pending)
    requires io.place == Posted && io.Counted() && io.node == node
    ensures NodeOk(node, b.ios) && TimersOk(Owners(b.timers), b.ios, b.loop_timer) && IoOk(io, b.nodes)
  {
    hide Owners, Io.Counted, NoDup;
    ListBack(old(node.posted), io);
  }

  lemma NodeFacts(b: Base, node: Node)
    requires b.Valid() && node in b.nodes
    ensures NodeOk(node, b.ios) && TimersOk(Owners(b.timers), b.ios, b.loop_timer)
  {
  }

  /** A node that the moved IO does not belong to. */
  twostate lemma OtherNode(b: Base, new io: Io, new n: Node)
    requires n in old(b.nodes) && old(NodeOk(n, b.ios)) && old(b.ios) <= b.ios
    requires io in old(b.ios) ==> old(io.node) != n
    requires forall x | x in old(b.ios) && x != io :: unchanged(x)
    requires n.posted == old(n.posted) && n.pending == old(n.pending)
    ensures NodeOk(n, b.ios)
  {
    hide NoDup;
  }

  /** An IO that has not moved. */
  twostate lemma OtherIo(b: Base, new x: Io, new node: Node)
    requires x in old(b.ios) && node in old(b.nodes) && old(IoOk(x, b.nodes)) && b.nodes == old(b.nodes) && unchanged(x)
    requires forall n | n in b.nodes && n != node :: n.posted == old(n.posted) && n.pending == old(n.pending)
    requires (x in old(node.posted) ==> x in node.posted) && (x in old(node.pending) ==> x in node.pending)
    ensures IoOk(x, b.nodes)
  {
  }

  // ---------------------------------------------------------------- whole runs

  /** The objects of a run are those it started with or new ones. */
  twostate predicate Grown(b: Base)
    reads b
  {
    && (forall i | 0 <= i < |b.nodes| :: b.nodes[i] in old(b.nodes) || fresh(b.nodes[i]))
    && (forall io | io in b.ios :: io in old(b.ios) || fresh(io))
    && old(b.ios) <= b.ios
  }

  /** One round of the loop. Waiting lets time pass on the head timer, and handles it when it expires. */
  method Handle(b: Base, e: Event)
    requires b.Valid() && b.Short()
    modifies b, b.nodes, b.ios
    ensures b.Valid() && Grown(b)
    ensures forall io | io in old(b.ios) :: io.Measure() <= old(io.Measure())
    ensures Next(old(b.View()), e, b.View())
  {
    hide Base.Valid, Io.Counted, Io.Measure, Base.View, Effect;
    if b.timer_ms.Some? && !b.loop_timer {
      ghost var k := b.SetLoopTimer();
    }
    HandleEvent(b, e);
  }

  method HandleEvent(b: Base, e: Event)
    requires b.Valid() && b.Short()
    modifies b, b.nodes, b.ios
    ensures b.Valid() && Grown(b)
    ensures forall io | io in old(b.ios) :: io.Measure() <= old(io.Measure())
    ensures Effect(old(b.View()), e, b.View())
  {
    hide Base.Valid, Io.Counted, Io.Measure, Base.View, Posts, Sends, Receives, Waits;
    match e
    case Known(addr, keys) =>
      var node := new Node(addr, keys);
      b.AddNode(node);
    case Submit(addr, op, key, val, ack, fn) =>
      Post(b, addr, op, key, val, ack, fn);
    case Writable(addr) =>
      var node := b.FindNode(addr);
      if node != null {
        PendingIos(b, node);
        ViewLists(b, node);
        b.WriteNode(node);
      }
    case Message(msg) =>
      b.HandleMsg(msg);
    case Wait(ms) =>
      Await(b, ms);
  }

  /** A request, as bano_httpd or an application makes it. */
  method Post(b: Base, addr: nat, op: nat, key: nat, val: nat, ack: bool, fn: bool)
    requires b.Valid()
    modifies b`ios, b.nodes
    ensures b.Valid() && b.nodes == old(b.nodes) && old(b.ios) <= b.ios
    ensures forall io | io in b.ios :: io in old(b.ios) || fresh(io)
    ensures Effect(old(b.View()), Submit(addr, op, key, val, ack, fn), b.View())
  {
    hide Base.View, NodeOf, Base.Valid, Posts;
    var node := b.FindNode(addr);
    if node != null {
      var io := new Io(op, key, val, ack, fn);
      assert io !in b.ios;
      b.PostIo(node, io);
      ViewAt(b, io, node);
      PostsLast(old(b.View()), node, io, StateOf(io));
    }
  }

  lemma PostsLast(s: State, node: Node, io: Io, v: IoState)
    ensures var l := ListsAt(Posts(s, node, io, v), node).posted; l != [] && Last(l) == io
    ensures IoAt(Posts(s, node, io, v), io) == v
  {
  }

  method Await(b: Base, ms: nat)
    requires b.Valid()
    modifies b`timers, b`loop_timer, b.nodes, b.ios
    ensures b.Valid() && b.ios == old(b.ios)
    ensures forall io | io in b.ios :: io.Measure() <= old(io.Measure())
    ensures b.View() == Waits(old(b.View()), ms)
  {
    hide Base.Valid, Io.Counted, Io.Measure, Base.View, Expires;
    if b.timers != [] {
      b.Elapse(if ms < b.timers[0].rel_ms then b.timers[0].rel_ms - ms else 0);
      if b.timers[0].rel_ms == 0 { b.Expire(); }
    }
  }

  /**
   * bano_start_loop, over any sequence of events: it goes through the states of the machine, one round for each
   * event. The invariant holds after every one of them, no IO is ever forgotten, and the measure of an IO never
   * grows.
   */
  method Run(b: Base, events: seq<Event>) returns (ghost trace: seq<State>)
    requires b.Valid() && b.Short()
    modifies b, b.nodes, b.ios
    ensures b.Valid() && Grown(b)
    ensures forall io | io in old(b.ios) :: io.Measure() <= old(io.Measure())
    ensures SoundRun(trace, events) && trace[0] == old(b.View()) && trace[|events|] == b.View()
  {
    hide Base.Valid, Io.Measure, Base.View, Next, Sound, SoundRun;
    trace := [b.View()];
    SoundView(b);
    RunStart(b.View());
    for i := 0 to |events|
      invariant b.Valid() && Grown(b)
      invariant forall io | io in old(b.ios) :: io.Measure() <= old(io.Measure())
      invariant SoundRun(trace, events[..i]) && |trace| == i + 1
      invariant trace[0] == old(b.View()) && trace[i] == b.View()
    {
      Handle(b, events[i]);
      SoundView(b);
      assert events[..i + 1] == events[..i] + [events[i]];
      RunMore(trace, events[..i], events[i], b.View());
      trace := trace + [b.View()];
    }
    assert events[..|events|] == events;
  }

  lemma RunStart(s: State)
    requires Sound(s)
    ensures SoundRun([s], [])
  {
  }

  lemma RunMore(trace: seq<State>, events: seq<Event>, e: Event, s: State)
    requires SoundRun(trace, events) && Sound(s) && |trace| == |events| + 1 && Next(trace[|events|], e, s)
    ensures SoundRun(trace + [s], events + [e])
  {
    hide Next, Sound;
    var t, f := trace + [s], events + [e];
    forall i | 0 <= i < |f| ensures Next(t[i], f[i], t[i + 1]) {
      if i < |events| { assert Next(trace[i], events[i], trace[i + 1]); }
    }
  }

  /** The invariant of the objects is that of their values. */
  lemma SoundView(b: Base)
    requires b.Valid()
    ensures Sound(b.View())
  {
    hide Base.View, NodeSound, IoSound, Base.QueueOk;
    ViewIos(b);
    forall n | n in b.nodes ensures NodeSound(b.View(), n) { SoundNode(b, n); }
    forall io | io in b.ios ensures IoSound(b.View(), io) { SoundIo(b, io); }
    forall e | e in b.timers && e.owner != null ensures e.owner in b.ios && e.owner.place == Pending {
      var i: nat :| i < |b.timers| && b.timers[i] == e;
      assert Owners(b.timers)[i] == e.owner;
    }
  }

  lemma ViewIos(b: Base)
    ensures forall io | io in b.ios :: b.View().ios[io] == StateOf(io)
    ensures forall n | n in b.nodes :: ListsAt(b.View(), n) == ListsOf(n)
  {
  }

  lemma SoundNode(b: Base, n: Node)
    requires b.Valid() && n in b.nodes
    ensures NodeSound(b.View(), n)
  {
    hide Base.View, NoDup, Base.QueueOk, TimersOk, IoOk;
    ViewIos(b);
    assert NodeOk(n, b.ios);
  }

  lemma SoundIo(b: Base, io: Io)
    requires b.Valid() && io in b.ios
    ensures IoSound(b.View(), io)
  {
    hide Base.View, NoDup, Base.QueueOk, TimersOk, NodeOk;
    ViewIos(b);
    assert IoOk(io, b.nodes);
  }

  /**
   * What the invariant means for each IO, in every run: it is in exactly one of the three places, on the
   * lists of no node but its own and only once; its completion ran at most once, and exactly once when it
   * is done; and it went out at most once more than its retry count allows.
   */
  lemma Conserved(b: Base, io: Io)
    requires b.Valid() && io in b.ios
    ensures forall n | n in b.nodes :: io in n.posted <==> io.place == Posted && n == io.node
    ensures forall n | n in b.nodes :: io in n.pending <==> io.place == Pending && n == io.node
    ensures io.place != Done ==> io.node in b.nodes
    ensures forall n | n in b.nodes :: NoDup(n.posted) && NoDup(n.pending)
    ensures io.completions == if io.place == Done && io.compl_fn then 1 else 0
    ensures io.sent <= if io.reply then RETRY_COUNT + 1 else 1
    ensures io in Owners(b.timers) <==> io.place == Pending
  {
    forall n | n in b.nodes
      ensures io in n.posted <==> io.place == Posted && n == io.node
      ensures io in n.pending <==> io.place == Pending && n == io.node
      ensures NoDup(n.posted) && NoDup(n.pending)
    {
      assert NodeOk(n, b.ios);
    }
    assert IoOk(io, b.nodes);
  }

  // ---------------------------------------------------------------- a slow loop timer

  lemma SlowPlaces(ms: nat)
    requires ms > RETRY_MS
    ensures forall k | T.PlaceFor([], ms, k) :: k == 0 && T.InsertRel([], ms, k) == [ms]
    ensures forall k | T.PlaceFor([ms], RETRY_MS, k) ::
              k == 0 && T.InsertRel([ms], RETRY_MS, k) == [RETRY_MS, ms - RETRY_MS]
    ensures var rels := [RETRY_MS, ms - RETRY_MS]; forall k | T.PlaceFor(rels, RETRY_MS, k) :: k == 1
  {
    assert T.Sum([ms], 1) == ms;
    assert T.Sum([RETRY_MS, ms - RETRY_MS], 1) == RETRY_MS && T.Sum([RETRY_MS, ms - RETRY_MS], 2) == ms;
  }

  /** The back links of the example: the second IO timer is inserted in the middle. */
  lemma SlowLinks()
    ensures L.BackWith([], 0) == [true] && L.BackWith([true], 0) == [true, true]
    ensures L.BackWith([true, true], 1) == [true, false, true]
    ensures forall owners: seq<Io?> | |owners| == 3 :: L.Left(owners, [true, false, true], 1) == [owners[2]]
  {
  }

  /** A base station with a loop timer that is slower than the timers of IOs, and a node that it knows. */
  method SlowBase(ms: uint32) returns (b: Base, node: Node)
    requires ms > RETRY_MS
    ensures b.Valid() && fresh(b) && fresh(node) && b.timer_ms == Some(ms) && b.nodes == [node] && b.ios == {}
    ensures node.addr == 1 && node.posted == node.pending == [] && b.loop_timer
    ensures Owners(b.timers) == [null] && Rels(b.timers) == [ms] && Backs(b.timers) == [true]
  {
    hide *;
    b := new Base(false, Some(ms));
    node := new Node(1, None);
    b.AddNode(node);
    SlowPlaces(ms);
    SlowLinks();
    Startable(b, ms);
    ghost var k := b.SetLoopTimer();
  }

  /** Before there are timers one can be set. */
  lemma Startable(b: Base, ms: nat)
    requires b.timers == []
    ensures Owners(b.timers) == [] && Rels(b.timers) == [] && Backs(b.timers) == []
  {
  }

  /** Two IOs are posted. */
  method SlowPosted(ms: uint32) returns (b: Base, node: Node, first: Io, second: Io)
    requires ms > RETRY_MS
    ensures b.Valid() && fresh(b) && fresh(node) && fresh(first) && fresh(second)
    ensures b.timer_ms == Some(ms) && b.nodes == [node] && b.ios == {first, second}
    ensures node.addr == 1 && node.posted == [first, second] && node.pending == [] && first != second
    ensures first.key == 1 && second.key == 2 && first.op == second.op == OP_GET && first.reply && second.reply
    ensures Owners(b.timers) == [null] && Rels(b.timers) == [ms] && Backs(b.timers) == [true]
  {
    hide *;
    b, node := SlowBase(ms);
    first := new Io(OP_GET, 1, 0, false, true);
    second := new Io(OP_GET, 2, 0, false, true);
    Unsent(first);
    Unsent(second);
    b.PostIo(node, first);
    b.PostIo(node, second);
  }

  /** Both are sent, with timers before the loop timer. */
  method SlowSent(ms: uint32) returns (b: Base, node: Node, first: Io, second: Io)
    requires ms > RETRY_MS
    ensures b.Valid() && fresh(b) && fresh(node) && fresh(first) && fresh(second)
    ensures b.timer_ms == Some(ms) && b.nodes == [node] && b.ios == {first, second}
    ensures node.addr == 1 && node.pending == [first, second] && first != second
    ensures first.key == 1 && second.key == 2 && second.op == OP_GET
    ensures Owners(b.timers) == [first, second, null] && Backs(b.timers) == [true, false, true]
  {
    hide *;
    b, node, first, second := SlowPosted(ms);
    SlowPlaces(ms);
    SlowLinks();
    ghost var k := b.AwaitReply(node);
    assert k == 0 && Owners(b.timers) == [first, null];
    assert node.posted == [second];
    k := b.AwaitReply(node);
    assert k == 1;
  }

  lemma Unsent(io: Io)
    requires io.place == Posted && io.sent == io.completions == 0 && io.retry_count == RETRY_COUNT
    ensures io.Counted()
  {
  }

  /** The second one is the only answered one, and its timer the second one. */
  lemma SlowAnswer(node: Node, first: Io, second: Io, msg: Msg)
    requires node.addr == msg.saddr && msg.key == second.key != first.key && second.op == OP_GET
    ensures Answers(node, msg, second) && !Answers(node, msg, first)
  {
  }

  /**
   * For every loop timer that is slower than the timers of IOs there is a run that loses an IO. Two IOs
   * are posted and sent, and the second one is answered first: the first one stays pending, with no timer
   * left that would send it again or complete it.
   */
  method LosesTimer(ms: uint32) returns (b: Base, first: Io)
    requires ms > RETRY_MS
    ensures b.timer_ms == Some(ms) && first in b.ios && first.place == Pending && first.completions == 0
    ensures Owners(b.timers) == [null] && !b.Valid()
  {
    hide *;
    var node, second;
    b, node, first, second := SlowSent(ms);
    var msg := Msg(OP_SET, true, false, 1, 2, 5);
    SlowAnswer(node, first, second, msg);
    SlowLinks();
    SlowFacts(b, node, first);
    label before:
    assert second in node.pending;
    var answered;
    ghost var k;
    answered, k := b.HandleReply(node, msg);
    assert answered == second;
    assert k == 1 by { assert old@before(Owners(b.timers)) == [first, second, null]; }
    assert unchanged@before(first);
    Orphan(b, first);
  }

  lemma SlowFacts(b: Base, node: Node, io: Io)
    requires b.Valid() && node in b.nodes && io in node.pending
    ensures io.place == Pending && io.completions == 0
  {
    Facts(b, io, node);
  }

  lemma Orphan(b: Base, io: Io)
    requires io in b.ios && io.place == Pending && io !in Owners(b.timers)
    ensures !b.Valid()
  {
  }
}
