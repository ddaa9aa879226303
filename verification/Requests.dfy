/** What the request engine works on: IOs, nodes, messages, and the entries of the timer queue. */
module Requests {
  import opened Bits
  import opened Options
  import T = Timer

  const IO_ERR_SUCCESS: nat := 0
  const IO_ERR_FAILURE: nat := 1
  const IO_ERR_TIMEOUT: nat := 2
  const RETRY_MS: nat := 1700
  const RETRY_COUNT: nat := 3
  const OP_SET: nat := 0
  const OP_GET: nat := 1

  /** A radio message, deciphered: two bits of operation, the flags REPLY and ERR, and the payload. */
  datatype Msg = Msg(op: nat, reply: bool, err: bool, saddr: nat, key: nat, val: nat)

  /** Where an IO is in its life. */
  datatype Place = Posted | Pending | Done

  class Io {
    const op: nat
    const key: nat
    const val: nat
    /** the flag BANO_IO_FLAG_REPLY */
    const reply: bool
    const retry_ms: uint32 := RETRY_MS
    /** whether there is a completion function */
    const compl_fn: bool
    var retry_count: nat
    var compl_err: nat
    var compl_val: nat
    var node: Node?

    ghost var place: Place
    /** how often the IO has been transmitted and completed */
    ghost var sent: nat
    ghost var completions: nat

    /** bano_alloc_get_io and bano_alloc_set_io; without acknowledgement the retry fields stay unused. */
    constructor (op: nat, key: nat, val: nat, is_ack: bool, fn: bool)
      ensures this.op == op && this.key == key && this.val == val && compl_fn == fn
      ensures reply == (op == OP_GET || is_ack)
      ensures retry_count == RETRY_COUNT
      ensures place == Posted && sent == completions == 0 && compl_val == 0
    {
      this.op, this.key, this.val, this.compl_fn := op, key, val, fn;
      reply := op == OP_GET || is_ack;
      retry_count, compl_val := RETRY_COUNT, 0;
      node := null;
      place, sent, completions := Posted, 0, 0;
    }

    /** Sends and completions so far, in each place. */
    ghost predicate Counted()
      reads this
    {
      match place
      case Posted => completions == 0 && (if reply then sent + retry_count == RETRY_COUNT else sent == 0)
      case Pending => completions == 0 && reply && sent + retry_count == RETRY_COUNT + 1
      case Done => completions == (if compl_fn then 1 else 0) && sent <= (if reply then RETRY_COUNT + 1 else 1)
    }

    /** Strictly decreases with every transmission and every expiry of a timer. */
    ghost function Measure(): nat
      reads this
    {
      match place
      case Posted => 2 * retry_count + 2
      case Pending => 2 * retry_count + 1
      case Done => 0
    }
  }

  class Node {
    const addr: nat
    /** the keys of the node's description, if it has one */
    const nodl: Option<set<nat>>
    var posted: seq<Io>
    var pending: seq<Io>
    var keyvals: map<nat, nat>

    constructor (addr: nat, nodl: Option<set<nat>>)
      ensures this.addr == addr && this.nodl == nodl && posted == pending == [] && keyvals == map[]
    {
      this.addr, this.nodl, posted, pending, keyvals := addr, nodl, [], [], map[];
    }
  }

  /** A timer, the IO it belongs to (the loop timer belongs to none), and whether its item has its back link. */
  datatype Entry = Entry(rel_ms: nat, owner: Io?, back: bool)

  ghost predicate NoDup<X>(s: seq<X>) {
    forall i, j | 0 <= i < j < |s| :: s[i] != s[j]
  }

  /** cmp_pending_io: the message comes from the node, and answers the request of the IO. */
  predicate Answers(node: Node, msg: Msg, io: Io) {
    && node.addr == msg.saddr
    && (io.op == OP_SET ==> io.val == msg.val)
    && io.key == msg.key
  }

  // ---------------------------------------------------------------- timers

  function Owners(timers: seq<Entry>): (s: seq<Io?>)
    ensures |s| == |timers|
    ensures forall i | 0 <= i < |s| :: s[i] == timers[i].owner
  {
    seq(|timers|, i requires 0 <= i < |timers| => timers[i].owner)
  }

  function Rels(timers: seq<Entry>): (s: seq<nat>)
    ensures |s| == |timers|
    ensures forall i | 0 <= i < |s| :: s[i] == timers[i].rel_ms
  {
    seq(|timers|, i requires 0 <= i < |timers| => timers[i].rel_ms)
  }

  function Backs(timers: seq<Entry>): (s: seq<bool>)
    ensures |s| == |timers|
    ensures forall i | 0 <= i < |s| :: s[i] == timers[i].back
  {
    seq(|timers|, i requires 0 <= i < |timers| => timers[i].back)
  }

  /** bano_list_del gives the item behind a deleted one its back link. */
  function Healed(timers: seq<Entry>): (r: seq<Entry>)
    ensures |r| == |timers|
  {
    if timers == [] then [] else [timers[0].(back := true)] + timers[1..]
  }

  /** The timers after bano_timer_add: the new one at position k takes its delta from the next one. */
  ghost predicate Entered(was: seq<Entry>, ms: nat, k: nat, owner: Io?, now: seq<Entry>)
    requires T.PlaceFor(Rels(was), ms, k)
  {
    && |now| == |was| + 1
    && now[k] == Entry(ms - T.Sum(Rels(was), k), owner, k == |was| || k == 0)
    && (forall i | 0 <= i < k :: now[i] == was[i])
    && (k < |was| ==> now[k + 1].rel_ms == T.Sum(Rels(was), k) + was[k].rel_ms - ms)
    && (k < |was| ==> now[k + 1].owner == was[k].owner && now[k + 1].back == was[k].back)
    && (forall i | k + 1 < i < |now| :: now[i] == was[i - 1])
  }

  /** The assignments of bano_timer_add. */
  function WithTimer(timers: seq<Entry>, ms: nat, ms_sum: nat, i: nat, owner: Io?): (r: seq<Entry>)
    requires T.PlaceFor(Rels(timers), ms, i) && ms_sum == T.Sum(Rels(timers), i)
    ensures Entered(timers, ms, i, owner, r)
  {
    if i == |timers| then
      timers + [Entry(ms - ms_sum, owner, true)]
    else
      var next := timers[i];
      timers[..i] + [Entry(ms - ms_sum, owner, i == 0), Entry(ms_sum + next.rel_ms - ms, next.owner, next.back)]
      + timers[i + 1..]
  }

  /** What can happen to the base station from outside. */
  datatype Event =
    | Known(addr: nat, keys: Option<set<nat>>)
    | Submit(addr: nat, op: nat, key: nat, val: nat, ack: bool, fn: bool)
    | Writable(addr: nat)
    | Message(msg: Msg)
    | Wait(ms: nat)
}
