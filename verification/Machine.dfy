/**
 * The request engine as a machine over values: what one event makes of the state of the base station. The
 * methods of the engine are proved to do exactly this; what a run can and cannot do is proved here.
 */
module Machine {
  import opened Bits
  import opened Options
  import opened Requests
  import T = Timer

  /** The fields of an IO. */
  datatype IoState = IoState(place: Place, node: Node?, retries: nat, sent: nat, completions: nat, err: nat, val: nat)

  /** The fields of a node. */
  datatype Lists = Lists(posted: seq<Io>, pending: seq<Io>, keyvals: map<nat, nat>)

  datatype State = State(new_nodes: bool, timer_ms: Option<uint32>, nodes: seq<Node>, lists: map<Node, Lists>,
                         ios: map<Io, IoState>, timers: seq<Entry>, loop_timer: bool)

  function IoAt(s: State, io: Io): IoState {
    if io in s.ios then s.ios[io] else IoState(Posted, null, 0, 0, 0, 0, 0)
  }

  function ListsAt(s: State, node: Node): Lists {
    if node in s.lists then s.lists[node] else Lists([], [], map[])
  }

  function WithLists(s: State, node: Node, l: Lists): State {
    s.(lists := s.lists[node := l])
  }

  /** One IO and its node have changed, and the timers. */
  function Changed(s: State, io: Io, v: IoState, node: Node, l: Lists, timers: seq<Entry>): State {
    s.(ios := s.ios[io := v], lists := s.lists[node := l], timers := timers)
  }

  // ---------------------------------------------------------------- timers

  /** The place of a timer that is due after ms: behind all that are due no later. */
  function PlaceFrom(rels: seq<nat>, ms: nat, i: nat): (k: nat)
    requires i <= |rels| && T.Sum(rels, i) <= ms
    ensures T.PlaceFor(rels, ms, k)
    decreases |rels| - i
  {
    if i < |rels| && T.Sum(rels, i + 1) <= ms then PlaceFrom(rels, ms, i + 1) else i
  }

  function Added(timers: seq<Entry>, ms: nat, owner: Io?): seq<Entry> {
    var k := PlaceFrom(Rels(timers), ms, 0);
    WithTimer(timers, ms, T.Sum(Rels(timers), k), k, owner)
  }

  /** The first entry of this owner, from position i on. */
  function EntryFrom(timers: seq<Entry>, owner: Io?, i: nat): (k: nat)
    requires i <= |timers|
    ensures i <= k <= |timers|
    decreases |timers| - i
  {
    if i < |timers| && timers[i].owner != owner then EntryFrom(timers, owner, i + 1) else i
  }

  function Dropped(timers: seq<Entry>, owner: Io?): seq<Entry> {
    var k := EntryFrom(timers, owner, 0);
    if k == |timers| then timers else (if timers[k].back then timers[..k] else []) + Healed(timers[k + 1..])
  }

  // ---------------------------------------------------------------- IOs

  /** An IO after its completion function has run, if it has one. */
  function Completed(io: Io, v: IoState, err: nat, val: nat): IoState {
    if io.compl_fn then
      v.(place := Done, completions := v.completions + 1, err := err,
         val := if err == IO_ERR_SUCCESS then val else v.val)
    else v.(place := Done)
  }

  function SentIo(io: Io, v: IoState): IoState {
    if io.reply then v.(place := Pending, sent := v.sent + 1)
    else Completed(io, v.(sent := v.sent + 1), IO_ERR_SUCCESS, 0)
  }

  /** An IO whose timer has expired: posted again, or given up. */
  function ExpiredIo(io: Io, v: IoState): IoState {
    if v.retries == 0 then Completed(io, v.(retries := 0xffff_ffff), IO_ERR_TIMEOUT, 0)
    else v.(place := Posted, retries := v.retries - 1)
  }

  function AnsweredIo(io: Io, v: IoState, msg: Msg): IoState {
    Completed(io, v, if msg.err then IO_ERR_FAILURE else IO_ERR_SUCCESS, msg.val)
  }

  // ---------------------------------------------------------------- events

  /** The loop timer is set again whenever it is not running. */
  function Ticked(s: State): State {
    if s.timer_ms.Some? && !s.loop_timer then
      s.(timers := Added(s.timers, s.timer_ms.value, null), loop_timer := true)
    else s
  }

  /** The first node of this address, from position i on. */
  function NodeFrom(nodes: seq<Node>, addr: nat, i: nat): Node?
    requires i <= |nodes|
    decreases |nodes| - i
  {
    if i == |nodes| then null else if nodes[i].addr == addr then nodes[i] else NodeFrom(nodes, addr, i + 1)
  }

  function NodeOf(s: State, addr: nat): Node? {
    NodeFrom(s.nodes, addr, 0)
  }

  function WithNode(s: State, node: Node): State {
    s.(nodes := s.nodes + [node], lists := s.lists[node := Lists([], [], map[])])
  }

  function Posts(s: State, node: Node, io: Io, v: IoState): State {
    var l := ListsAt(s, node);
    Changed(s, io, v, node, l.(posted := l.posted + [io]), s.timers)
  }

  /** The first n posted IOs of a node are sent. */
  function Sends(s: State, node: Node, n: nat): State
    decreases n
  {
    if n == 0 || ListsAt(s, node).posted == [] then s else Sends(SendsOne(s, node), node, n - 1)
  }

  function SendsOne(s: State, node: Node): State
    requires ListsAt(s, node).posted != []
  {
    var l := ListsAt(s, node);
    var io := l.posted[0];
    Changed(s, io, SentIo(io, IoAt(s, io)), node,
            Lists(l.posted[1..], if io.reply then l.pending + [io] else l.pending, l.keyvals),
            if io.reply then Added(s.timers, RETRY_MS, io) else s.timers)
  }

  /** The first pending IO that the message answers, from position i on. */
  function AnswerFrom(node: Node, pending: seq<Io>, msg: Msg, i: nat): (k: nat)
    requires i <= |pending|
    ensures i <= k <= |pending|
    decreases |pending| - i
  {
    if i < |pending| && !Answers(node, msg, pending[i]) then AnswerFrom(node, pending, msg, i + 1) else i
  }

  function Replies(s: State, node: Node, msg: Msg): State {
    var l := ListsAt(s, node);
    var k := AnswerFrom(node, l.pending, msg, 0);
    if k == |l.pending| then s
    else
      var io := l.pending[k];
      Changed(s, io, AnsweredIo(io, IoAt(s, io), msg), node,
              Lists(l.posted, l.pending[..k] + l.pending[k + 1..], l.keyvals), Dropped(s.timers, io))
  }

  function Sets(s: State, node: Node, msg: Msg): State {
    var l := ListsAt(s, node);
    var t := if !msg.err && (node.nodl.None? || msg.key in node.nodl.value)
             then WithLists(s, node, l.(keyvals := l.keyvals[msg.key := msg.val])) else s;
    if msg.reply then Replies(t, node, msg) else t
  }

  /** A message, where `added` is the node object that is made for an unknown address. */
  function Receives(s: State, msg: Msg, added: Node?): State {
    var node := NodeOf(s, msg.saddr);
    if node != null then (if msg.op == OP_SET then Sets(s, node, msg) else s)
    else if !s.new_nodes || added == null then s
    else if msg.op == OP_SET then Sets(WithNode(s, added), added, msg) else WithNode(s, added)
  }

  /** The position of an IO in a list. */
  function IndexFrom(l: seq<Io>, io: Io, i: nat): (k: nat)
    requires i <= |l|
    ensures i <= k <= |l|
    decreases |l| - i
  {
    if i < |l| && l[i] != io then IndexFrom(l, io, i + 1) else i
  }

  function Without(l: seq<Io>, io: Io): seq<Io> {
    var k := IndexFrom(l, io, 0);
    if k == |l| then l else l[..k] + l[k + 1..]
  }

  function Expires(s: State): State
    requires s.timers != []
  {
    var io := s.timers[0].owner;
    if io == null then s.(timers := Dropped(s.timers, null), loop_timer := false)
    else
      var v := IoAt(s, io);
      if v.node == null then s
      else
        var l := ListsAt(s, v.node);
        Changed(s, io, ExpiredIo(io, v), v.node,
                Lists(if v.retries == 0 then l.posted else l.posted + [io], Without(l.pending, io), l.keyvals),
                Dropped(s.timers, io))
  }

  /** Time passes on the head timer, which is handled when it expires. */
  function Waits(s: State, ms: nat): State {
    if s.timers == [] then s
    else
      var head := s.timers[0];
      var left := if ms < head.rel_ms then head.rel_ms - ms else 0;
      var t := s.(timers := s.timers[0 := head.(rel_ms := left)]);
      if left == 0 then Expires(t) else t
  }

  function Last<X>(s: seq<X>): X
    requires s != []
  {
    s[|s| - 1]
  }

  /** One round of the loop. */
  ghost predicate Next(s: State, e: Event, s': State) {
    Effect(Ticked(s), e, s')
  }

  /** What an event does. A new node or IO is some object that was not there before. */
  ghost predicate Effect(s: State, e: Event, s': State) {
    match e
    case Known(addr, keys) =>
      && s'.nodes != []
      && var node := Last(s'.nodes);
         node !in s.nodes && node.addr == addr && node.nodl == keys && s' == WithNode(s, node)
    case Submit(addr, op, key, val, ack, fn) =>
      var node := NodeOf(s, addr);
      if node == null then s' == s
      else
        && ListsAt(s', node).posted != []
        && var io := Last(ListsAt(s', node).posted);
           && io !in s.ios && io.op == op && io.key == key && io.val == val && io.compl_fn == fn
           && io.reply == (op == OP_GET || ack)
           && s' == Posts(s, node, io, IoState(Posted, node, RETRY_COUNT, 0, 0, IoAt(s', io).err, 0))
    case Writable(addr) =>
      var node := NodeOf(s, addr);
      s' == if node == null then s else Sends(s, node, |ListsAt(s, node).posted|)
    case Message(msg) =>
      if NodeOf(s, msg.saddr) != null || !s.new_nodes then s' == Receives(s, msg, null)
      else
        && s'.nodes != []
        && var node := Last(s'.nodes);
           node !in s.nodes && node.addr == msg.saddr && node.nodl.None? && s' == Receives(s, msg, node)
    case Wait(ms) => s' == Waits(s, ms)
  }

  /** The states of a run, before and after each event. */
  ghost predicate IsRun(trace: seq<State>, events: seq<Event>) {
    && |trace| == |events| + 1
    && forall i | 0 <= i < |events| :: Next(trace[i], events[i], trace[i + 1])
  }

  // ---------------------------------------------------------------- what every state of a run keeps

  /** The lists of a node hold IOs of its own, each once, that are where they should be. */
  ghost predicate NodeSound(s: State, node: Node) {
    var l := ListsAt(s, node);
    && NoDup(l.posted) && NoDup(l.pending)
    && (forall io | io in l.posted :: io in s.ios && s.ios[io].place == Posted && s.ios[io].node == node)
    && (forall io | io in l.pending :: io in s.ios && s.ios[io].place == Pending && s.ios[io].node == node)
  }

  /** An IO that is not done is on the list of its node, and has used up as many retries as it was sent. */
  ghost predicate IoSound(s: State, io: Io) {
    var v := IoAt(s, io);
    && (v.place != Done ==> v.node != null && v.node in s.nodes)
    && (v.place == Posted ==> io in ListsAt(s, v.node).posted)
    && (v.place == Pending ==> io in ListsAt(s, v.node).pending && io.reply && v.sent + v.retries == RETRY_COUNT + 1)
  }

  ghost predicate TimersSound(s: State) {
    forall e | e in s.timers && e.owner != null :: e.owner in s.ios && s.ios[e.owner].place == Pending
  }

  ghost predicate Sound(s: State) {
    && (forall n | n in s.nodes :: NodeSound(s, n))
    && (forall io | io in s.ios :: IoSound(s, io))
    && TimersSound(s)
  }

  lemma AddedOwners(timers: seq<Entry>, ms: nat, owner: Io?, e: Entry)
    requires e in Added(timers, ms, owner)
    ensures e.owner == owner || exists f :: f in timers && f.owner == e.owner
  {
    var now := Added(timers, ms, owner);
    var k := PlaceFrom(Rels(timers), ms, 0);
    var i: nat :| i < |now| && now[i] == e;
    assert Entered(timers, ms, k, owner, now);
    if i != k { assert (if i < k then timers[i] else timers[i - 1]) in timers; }
  }

  lemma TickedSound(s: State)
    requires Sound(s)
    ensures Sound(Ticked(s))
  {
    hide Added, IoSound, NodeSound;
    var t := Ticked(s);
    forall e | e in t.timers && e.owner != null ensures e.owner in t.ios && t.ios[e.owner].place == Pending {
      if t.timers != s.timers { AddedOwners(s.timers, s.timer_ms.value, null, e); }
    }
    forall n | n in t.nodes ensures NodeSound(t, n) { SameLists(s, t, n); }
    forall io | io in t.ios ensures IoSound(t, io) { SameIo(s, t, io); }
  }

  lemma SameLists(s: State, t: State, n: Node)
    requires NodeSound(s, n) && t.ios == s.ios && t.lists == s.lists
    ensures NodeSound(t, n)
  {
  }

  lemma SameIo(s: State, t: State, io: Io)
    requires IoSound(s, io) && t.ios == s.ios && t.lists == s.lists && t.nodes == s.nodes
    ensures IoSound(t, io)
  {
  }

  // ---------------------------------------------------------------- what one event can do to one IO

  /** The four things that can happen to an IO. */
  ghost predicate Fated(io: Io, v: IoState, e: Event, v': IoState) {
    match e
    case Writable(_) => v.place == Posted && v' == SentIo(io, v)
    case Message(msg) =>
      && v.place == Pending && v' == AnsweredIo(io, v, msg)
      && msg.op == OP_SET && msg.reply && v.node != null && Answers(v.node, msg, io)
    case Wait(_) => v.place == Pending && v' == ExpiredIo(io, v)
    case _ => false
  }

  /** Each of the first n posted IOs is sent, once, and nothing happens to the others. */
  lemma {:induction false} SendsIo(s: State, node: Node, n: nat, io: Io)
    requires n <= |ListsAt(s, node).posted| && NoDup(ListsAt(s, node).posted)
    ensures IoAt(Sends(s, node, n), io)
            == if io in ListsAt(s, node).posted[..n] then SentIo(io, IoAt(s, io)) else IoAt(s, io)
    ensures io in s.ios ==> io in Sends(s, node, n).ios
    decreases n
  {
    hide SentIo, Added;
    var l := ListsAt(s, node).posted;
    if n > 0 {
      var t := SendsOne(s, node);
      assert ListsAt(t, node).posted == l[1..];
      RestDistinct(l);
      SendsIo(t, node, n - 1, io);
      assert l[..n] == [l[0]] + l[1..][..n - 1];
    }
  }

  lemma RestDistinct<X>(l: seq<X>)
    requires l != [] && NoDup(l)
    ensures NoDup(l[1..]) && l[0] !in l[1..]
  {
  }

  lemma RepliesIo(s: State, node: Node, msg: Msg, io: Io)
    requires NodeSound(s, node) && io in s.ios
    ensures var t := Replies(s, node, msg);
            && io in t.ios
            && (IoAt(t, io) == IoAt(s, io)
                || (IoAt(s, io).place == Pending && IoAt(t, io) == AnsweredIo(io, IoAt(s, io), msg)
                    && IoAt(s, io).node == node && Answers(node, msg, io)))
  {
    hide AnsweredIo, Dropped;
    AnswerIs(node, ListsAt(s, node).pending, msg, 0);
  }

  lemma {:induction false} AnswerIs(node: Node, pending: seq<Io>, msg: Msg, i: nat)
    requires i <= |pending|
    ensures var k := AnswerFrom(node, pending, msg, i);
            && (k < |pending| ==> Answers(node, msg, pending[k]))
            && forall j | i <= j < k :: !Answers(node, msg, pending[j])
    decreases |pending| - i
  {
    hide Answers;
    if i < |pending| && !Answers(node, msg, pending[i]) { AnswerIs(node, pending, msg, i + 1); }
  }

  lemma SetsIo(s: State, node: Node, msg: Msg, io: Io)
    requires NodeSound(s, node) && io in s.ios
    ensures var t := Sets(s, node, msg);
            && io in t.ios
            && (IoAt(t, io) == IoAt(s, io)
                || (msg.reply && IoAt(s, io).place == Pending && IoAt(t, io) == AnsweredIo(io, IoAt(s, io), msg)
                    && IoAt(s, io).node == node && Answers(node, msg, io)))
  {
    hide AnsweredIo, Replies, Answers, NoDup;
    var l := ListsAt(s, node);
    var t := if !msg.err && (node.nodl.None? || msg.key in node.nodl.value)
             then WithLists(s, node, l.(keyvals := l.keyvals[msg.key := msg.val])) else s;
    if msg.reply { RepliesIo(t, node, msg, io); }
  }

  lemma {:induction false} NodeFromIs(nodes: seq<Node>, addr: nat, i: nat)
    requires i <= |nodes|
    ensures var n := NodeFrom(nodes, addr, i); n != null ==> n in nodes && n.addr == addr
    decreases |nodes| - i
  {
    if i < |nodes| { NodeFromIs(nodes, addr, i + 1); }
  }

  /** An event changes an IO in one of the four ways, or not at all. */
  lemma IoStep(s: State, e: Event, s': State, io: Io)
    requires Sound(s) && Effect(s, e, s') && io in s.ios
    ensures io in s'.ios && (IoAt(s', io) == IoAt(s, io) || Fated(io, IoAt(s, io), e, IoAt(s', io)))
  {
    match e
    case Known(addr, keys) =>
    case Submit(addr, op, key, val, ack, fn) =>
    case Writable(addr) => WriteStep(s, addr, s', io);
    case Message(msg) => MessageStep(s, msg, s', io);
    case Wait(ms) => WaitStep(s, ms, s', io);
  }

  lemma WriteStep(s: State, addr: nat, s': State, io: Io)
    requires Sound(s) && Effect(s, Writable(addr), s') && io in s.ios
    ensures io in s'.ios && (IoAt(s', io) == IoAt(s, io) || Fated(io, IoAt(s, io), Writable(addr), IoAt(s', io)))
  {
    hide Sends, SentIo, NoDup;
    var node := NodeOf(s, addr);
    if node != null {
      NodeFromIs(s.nodes, addr, 0);
      assert NodeSound(s, node);
      var l := ListsAt(s, node).posted;
      SendsIo(s, node, |l|, io);
      assert l[..|l|] == l;
    }
  }

  lemma MessageStep(s: State, msg: Msg, s': State, io: Io)
    requires Sound(s) && Effect(s, Message(msg), s') && io in s.ios
    ensures io in s'.ios && (IoAt(s', io) == IoAt(s, io) || Fated(io, IoAt(s, io), Message(msg), IoAt(s', io)))
  {
    hide Sets, AnsweredIo, Answers;
    var node := NodeOf(s, msg.saddr);
    if node != null {
      NodeFromIs(s.nodes, msg.saddr, 0);
      assert NodeSound(s, node);
      if msg.op == OP_SET { SetsIo(s, node, msg, io); }
    } else if s.new_nodes {
      var added := Last(s'.nodes);
      var t := WithNode(s, added);
      assert NodeSound(t, added);
      assert IoAt(t, io) == IoAt(s, io);
      if msg.op == OP_SET { SetsIo(t, added, msg, io); }
    }
  }

  lemma WaitStep(s: State, ms: nat, s': State, io: Io)
    requires Sound(s) && Effect(s, Wait(ms), s') && io in s.ios
    ensures io in s'.ios && (IoAt(s', io) == IoAt(s, io) || Fated(io, IoAt(s, io), Wait(ms), IoAt(s', io)))
  {
    hide Dropped, Without, ExpiredIo, NodeSound;
    if s.timers != [] {
      assert s.timers[0] in s.timers;
    }
  }

  // ---------------------------------------------------------------- what a run can do to one IO

  /** A run all of whose states keep the invariant. */
  ghost predicate SoundRun(trace: seq<State>, events: seq<Event>) {
    IsRun(trace, events) && forall i | 0 <= i < |trace| :: Sound(trace[i])
  }

  lemma RunStep(trace: seq<State>, events: seq<Event>, i: nat, io: Io)
    requires SoundRun(trace, events) && i < |events| && io in trace[i].ios
    ensures io in trace[i + 1].ios
    ensures var v, v' := IoAt(trace[i], io), IoAt(trace[i + 1], io); v' == v || Fated(io, v, events[i], v')
  {
    hide Effect, Sound, Added;
    assert Next(trace[i], events[i], trace[i + 1]);
    TickedSound(trace[i]);
    IoStep(Ticked(trace[i]), events[i], trace[i + 1], io);
  }

  /** An IO that is done stays as it is, whatever happens. */
  lemma {:induction false} DoneForGood(trace: seq<State>, events: seq<Event>, m: nat, n: nat, io: Io)
    requires SoundRun(trace, events) && m <= n < |trace| && io in trace[m].ios && IoAt(trace[m], io).place == Done
    ensures io in trace[n].ios && IoAt(trace[n], io) == IoAt(trace[m], io)
    decreases n - m
  {
    hide SoundRun;
    if m < n {
      RunSize(trace, events);
      DoneForGood(trace, events, m, n - 1, io);
      RunStep(trace, events, n - 1, io);
    }
  }

  lemma RunSize(trace: seq<State>, events: seq<Event>)
    requires SoundRun(trace, events)
    ensures |trace| == |events| + 1
  {
  }

  /** The event that finished an IO. */
  lemma {:induction false} Finished(trace: seq<State>, events: seq<Event>, m: nat, n: nat, io: Io) returns (i: nat)
    requires SoundRun(trace, events) && m <= n < |trace| && io in trace[m].ios
    requires IoAt(trace[m], io).place != Done && IoAt(trace[n], io).place == Done
    ensures m <= i < n && i < |events| && io in trace[i].ios && IoAt(trace[i], io).place != Done
    ensures Fated(io, IoAt(trace[i], io), events[i], IoAt(trace[n], io))
    decreases n - m
  {
    hide SoundRun, Fated;
    RunSize(trace, events);
    RunStep(trace, events, m, io);
    if IoAt(trace[m + 1], io).place == Done {
      i := m;
      DoneForGood(trace, events, m + 1, n, io);
    } else {
      i := Finished(trace, events, m + 1, n, io);
    }
  }

  /**
   * Why a request that asked for a reply is done, in any run: a request whose completion function was told of
   * success or failure was pending when a message with this key came in from its node, without or with the error
   * flag, and with the value that the function was told; and one whose function was told of a timeout was sent four
   * times, without an answer.
   */
  lemma WhyDone(trace: seq<State>, events: seq<Event>, m: nat, n: nat, io: Io) returns (i: nat)
    requires SoundRun(trace, events) && m <= n < |trace| && io in trace[m].ios && io.reply && io.compl_fn
    requires IoAt(trace[m], io).place != Done && IoAt(trace[n], io).place == Done
    ensures m <= i < n && i < |events| && io in trace[i].ios && IoAt(trace[i], io).place == Pending
    ensures IoAt(trace[n], io).completions == IoAt(trace[i], io).completions + 1
    ensures var v := IoAt(trace[n], io);
            match events[i]
            case Message(msg) =>
              && msg.op == OP_SET && msg.reply && msg.key == io.key && v.node != null && v.node.addr == msg.saddr
              && v.err == (if msg.err then IO_ERR_FAILURE else IO_ERR_SUCCESS)
              && (v.err == IO_ERR_SUCCESS ==> v.val == msg.val)
            case Wait(_) => v.err == IO_ERR_TIMEOUT && v.sent == 4
            case _ => false
  {
    i := Finished(trace, events, m, n, io);
    assert IoSound(trace[i], io);
  }

  // ---------------------------------------------------------------- an answer in time

  /** The IOs of a list that ask for a reply. */
  function Asking(l: seq<Io>): seq<Io> {
    if l == [] then [] else (if l[0].reply then [l[0]] else []) + Asking(l[1..])
  }

  /** Sending moves those that ask for a reply to the end of the pending ones, in order. */
  lemma {:induction false} SendsLists(s: State, node: Node, n: nat)
    requires n == |ListsAt(s, node).posted|
    ensures var l, t := ListsAt(s, node), Sends(s, node, n);
            && ListsAt(t, node) == Lists([], l.pending + Asking(l.posted), l.keyvals)
            && t.nodes == s.nodes && t.new_nodes == s.new_nodes
    decreases n
  {
    hide SentIo, Added;
    var l := ListsAt(s, node);
    if n > 0 {
      var t := SendsOne(s, node);
      assert ListsAt(t, node).posted == l.posted[1..];
      SendsLists(t, node, n - 1);
      assert l.pending + Asking(l.posted)
             == (if l.posted[0].reply then l.pending + [l.posted[0]] else l.pending) + Asking(l.posted[1..]);
    } else {
      assert l.pending + Asking(l.posted) == l.pending;
    }
  }

  lemma {:induction false} AnswerAt(node: Node, pending: seq<Io>, msg: Msg, i: nat, k: nat)
    requires i <= k < |pending| && Answers(node, msg, pending[k])
    requires forall j | i <= j < k :: !Answers(node, msg, pending[j])
    ensures AnswerFrom(node, pending, msg, i) == k
    decreases k - i
  {
    hide Answers;
    if i < k { AnswerAt(node, pending, msg, i + 1, k); }
  }

  /** A reply completes the first pending IO that it answers, and its value is kept. */
  lemma SetsAnswer(s: State, node: Node, msg: Msg, k: nat)
    requires msg.reply && k < |ListsAt(s, node).pending| && Answers(node, msg, ListsAt(s, node).pending[k])
    requires forall j | 0 <= j < k :: !Answers(node, msg, ListsAt(s, node).pending[j])
    ensures var io, t := ListsAt(s, node).pending[k], Sets(s, node, msg);
            && IoAt(t, io) == AnsweredIo(io, IoAt(s, io), msg)
            && t.timers == Dropped(s.timers, io) && ListsAt(t, node).posted == ListsAt(s, node).posted
            && ListsAt(t, node).pending == ListsAt(s, node).pending[..k] + ListsAt(s, node).pending[k + 1..]
            && (!msg.err && (node.nodl.None? || msg.key in node.nodl.value) ==>
                  ListsAt(t, node).keyvals == ListsAt(s, node).keyvals[msg.key := msg.val])
  {
    hide AnsweredIo, Dropped, Answers;
    AnswerAt(node, ListsAt(s, node).pending, msg, 0, k);
  }

  /**
   * A posted request whose node becomes writable, and then answers before anything else happens, is done, with what
   * the message says: it is the first of those pending and of those just sent that the message answers.
   */
  lemma AnsweredInTime(s: State, t: State, u: State, node: Node, io: Io, msg: Msg, k: nat)
    requires Sound(s) && node == NodeOf(s, msg.saddr) && io in ListsAt(s, node).posted && io.reply
    requires Next(s, Writable(msg.saddr), t) && Next(t, Message(msg), u)
    requires msg.op == OP_SET && msg.reply && Answers(node, msg, io)
    requires var l := ListsAt(s, node).pending + Asking(ListsAt(s, node).posted);
             k < |l| && l[k] == io && forall j | 0 <= j < k :: !Answers(node, msg, l[j])
    ensures var v, w := IoAt(s, io), IoAt(u, io);
            && w.place == Done && w.sent == v.sent + 1 && ListsAt(u, node).posted == []
            && (io.compl_fn ==> w.completions == v.completions + 1)
            && (io.compl_fn && !msg.err ==> w.err == IO_ERR_SUCCESS && w.val == msg.val)
            && (io.compl_fn && msg.err ==> w.err == IO_ERR_FAILURE)
    ensures !msg.err && (node.nodl.None? || msg.key in node.nodl.value) ==>
              ListsAt(u, node).keyvals == ListsAt(s, node).keyvals[msg.key := msg.val]
  {
    hide Added, SentIo, AnsweredIo, Answers, Sends, Sets, Asking, Sound, Effect, NodeOf;
    AllSent(s, t, node, msg.saddr, io);
    Heard(t, u, node, msg);
    SetsAnswer(Ticked(t), node, msg, k);
    AnswerSays(io, IoAt(s, io), msg);
  }

  lemma AllSent(s: State, t: State, node: Node, addr: nat, io: Io)
    requires Sound(s) && node == NodeOf(s, addr) && io in ListsAt(s, node).posted && Next(s, Writable(addr), t)
    ensures var l := ListsAt(s, node);
            ListsAt(Ticked(t), node) == Lists([], l.pending + Asking(l.posted), l.keyvals)
    ensures IoAt(Ticked(t), io) == SentIo(io, IoAt(s, io)) && NodeOf(Ticked(t), addr) == node
  {
    hide Added, SentIo, Sends, Asking;
    TickedSound(s);
    var s1 := Ticked(s);
    var l := ListsAt(s, node).posted;
    NodeFromIs(s.nodes, addr, 0);
    assert NodeSound(s, node);
    assert ListsAt(s1, node) == ListsAt(s, node) && IoAt(s1, io) == IoAt(s, io);
    SendsLists(s1, node, |l|);
    SendsIo(s1, node, |l|, io);
    assert l[..|l|] == l;
  }

  lemma Heard(t: State, u: State, node: Node, msg: Msg)
    requires Next(t, Message(msg), u) && NodeOf(Ticked(t), msg.saddr) == node && msg.op == OP_SET
    ensures u == Sets(Ticked(t), node, msg)
  {
    hide Sets;
  }

  lemma AnswerSays(io: Io, v: IoState, msg: Msg)
    requires io.reply
    ensures var w := AnsweredIo(io, SentIo(io, v), msg);
            && w.place == Done && w.sent == v.sent + 1
            && (io.compl_fn ==> w.completions == v.completions + 1)
            && (io.compl_fn && !msg.err ==> w.err == IO_ERR_SUCCESS && w.val == msg.val)
            && (io.compl_fn && msg.err ==> w.err == IO_ERR_FAILURE)
  {
  }
}
