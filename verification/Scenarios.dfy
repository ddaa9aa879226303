/** Runs of the request engine from its start: a request that is answered, and one that never is. */
module Scenarios {
  import opened Options
  import opened Requests
  import opened Machine
  import opened Engine

  // ---------------------------------------------------------------- a request that is answered

  /** A node becomes known, a value is asked for, the request is sent, and the node tells the value. */
  function Asked(val: nat): seq<Event> {
    [Known(1, None), Submit(1, OP_GET, 2, 0, false, true), Writable(1), Message(Msg(OP_SET, true, false, 1, 2, val))]
  }

  method AskedRun(val: nat) returns (b: Base, ghost node: Node, ghost io: Io)
    ensures b.nodes == [node] && node.addr == 1 && node.keyvals == map[2 := val]
    ensures io in b.ios && io.op == OP_GET && io.key == 2 && io.node == node
    ensures io.place == Done && io.sent == io.completions == 1 && io.compl_err == IO_ERR_SUCCESS && io.compl_val == val
  {
    hide *;
    b := new Base(false, Some(1000));
    AskedShort(b);
    EmptyView(b);
    ghost var trace := Run(b, Asked(val));
    AskedSize(val);
    RunSize(trace, Asked(val));
    node, io := AskedStates(trace, val);
    AskedFields(b, node, io);
  }

  lemma AskedShort(b: Base)
    requires b.timer_ms == Some(1000)
    ensures b.Short()
  {
  }

  lemma AskedSize(val: nat)
    ensures |Asked(val)| == 4
  {
  }

  lemma EmptyView(b: Base)
    requires b.nodes == [] && b.ios == {}
    ensures b.View().nodes == [] && b.View().ios == map[]
  {
  }

  lemma AskedFields(b: Base, node: Node, io: Io)
    requires b.View().nodes == [node] && io in b.View().ios
    ensures b.nodes == [node] && io in b.ios
    ensures IoAt(b.View(), io) == StateOf(io) && ListsAt(b.View(), node) == ListsOf(node)
    ensures StateOf(io) == IoState(io.place, io.node, io.retry_count, io.sent, io.completions, io.compl_err,
                                   io.compl_val)
    ensures ListsOf(node).keyvals == node.keyvals
  {
    ViewIos(b);
  }

  lemma AskedStates(trace: seq<State>, val: nat) returns (node: Node, io: Io)
    requires SoundRun(trace, Asked(val)) && |trace| > 0 && trace[0].nodes == [] && trace[0].ios == map[]
    ensures |trace| == 5 && trace[4].nodes == [node] && node.addr == 1 && io in trace[4].ios
    ensures io.op == OP_GET && io.key == 2 && ListsAt(trace[4], node).keyvals == map[2 := val]
    ensures var v := IoAt(trace[4], io);
            && v.node == node && v.place == Done && v.sent == v.completions == 1
            && v.err == IO_ERR_SUCCESS && v.val == val
  {
    hide SoundRun, Next, Sound;
    var e := Asked(val);
    AskedSteps(trace, val);
    node := KnownFirst(trace[0], trace[1]);
    io := SubmitFirst(trace[1], trace[2], node);
    SentFirst(trace[2], trace[3], node, io);
    AnsweredFirst(trace[3], trace[4], node, io, e[3].msg);
  }

  lemma AskedSteps(trace: seq<State>, val: nat)
    requires SoundRun(trace, Asked(val))
    ensures |trace| == 5 && |Asked(val)| == 4
    ensures forall i | 0 <= i < 4 :: Next(trace[i], Asked(val)[i], trace[i + 1])
  {
    hide Next, Sound;
  }

  lemma KnownFirst(s: State, t: State) returns (node: Node)
    requires Next(s, Known(1, None), t) && s.nodes == [] && s.ios == map[]
    ensures t.nodes == [node] && node.addr == 1 && node.nodl.None? && t.ios == map[]
    ensures ListsAt(t, node) == Lists([], [], map[])
    ensures s.timer_ms.None? ==> t.timer_ms.None? && t.timers == s.timers
  {
    hide Added;
    node := Last(t.nodes);
  }

  lemma SubmitFirst(s: State, t: State, node: Node) returns (io: Io)
    requires Next(s, Submit(1, OP_GET, 2, 0, false, true), t) && s.nodes == [node] && node.addr == 1
    requires ListsAt(s, node) == Lists([], [], map[])
    ensures t.nodes == [node] && ListsAt(t, node) == Lists([io], [], map[])
    ensures io.op == OP_GET && io.key == 2 && io.reply && io.compl_fn && io in t.ios
    ensures var v := IoAt(t, io); v.place == Posted && v.node == node && v.sent == v.completions == 0 && v.retries == 3
    ensures s.timer_ms.None? ==> t.timer_ms.None? && t.timers == s.timers
  {
    hide Added;
    OnlyNode(node);
    io := Last(ListsAt(t, node).posted);
    assert ListsAt(Ticked(s), node) == ListsAt(s, node);
  }

  lemma OnlyNode(node: Node)
    ensures NodeFrom([node], node.addr, 0) == node
  {
  }

  lemma SentFirst(s: State, t: State, node: Node, io: Io)
    requires Next(s, Writable(1), t) && s.nodes == [node] && node.addr == 1 && io in s.ios
    requires ListsAt(s, node) == Lists([io], [], map[]) && io.reply
    ensures t.nodes == [node] && ListsAt(t, node) == Lists([], [io], map[]) && io in t.ios
    ensures IoAt(t, io) == SentIo(io, IoAt(s, io))
  {
    hide Added, Sends;
    OnlyNode(node);
    var s1 := Ticked(s);
    assert ListsAt(s1, node) == ListsAt(s, node) && IoAt(s1, io) == IoAt(s, io);
    SendsLists(s1, node, 1);
    SendsIo(s1, node, 1, io);
    assert [io][..1] == [io] && [] + Asking([io]) == [io];
  }

  lemma AnsweredFirst(s: State, t: State, node: Node, io: Io, msg: Msg)
    requires Next(s, Message(msg), t) && s.nodes == [node] && node.addr == 1 == msg.saddr && io in s.ios
    requires ListsAt(s, node) == Lists([], [io], map[]) && node.nodl.None?
    requires msg.op == OP_SET && msg.reply && !msg.err && io.op == OP_GET && io.key == msg.key
    ensures t.nodes == [node] && io in t.ios && ListsAt(t, node).keyvals == map[msg.key := msg.val]
    ensures IoAt(t, io) == AnsweredIo(io, IoAt(s, io), msg)
  {
    hide Added, Dropped;
    OnlyNode(node);
    var s1 := Ticked(s);
    assert ListsAt(s1, node) == ListsAt(s, node) && IoAt(s1, io) == IoAt(s, io);
    SetsAnswer(s1, node, msg, 0);
  }

  // ---------------------------------------------------------------- a request that is never answered

  /** A value is asked for, and the node is always ready to be written to but never answers. */
  function Silence(ms: nat): (e: seq<Event>)
    ensures |e| == 10
  {
    [Known(1, None), Submit(1, OP_GET, 2, 0, false, true), Writable(1), Wait(1700), Writable(1), Wait(1700),
     Writable(1), Wait(1700), Writable(1), Wait(ms)]
  }

  /** The request has been sent four times, 1700 ms apart; so long after the last time it is given up, not before. */
  method SilentRun(ms: nat) returns (b: Base, ghost io: Io)
    ensures io in b.ios && io.op == OP_GET && io.key == 2 && io.sent == 4
    ensures if ms < 1700 then io.place == Pending && io.completions == 0
            else io.place == Done && io.completions == 1 && io.compl_err == IO_ERR_TIMEOUT
  {
    hide *;
    b := new Base(false, None);
    SilentShort(b);
    EmptyView(b);
    ghost var trace := Run(b, Silence(ms));
    RunSize(trace, Silence(ms));
    io := SilentStates(trace, ms);
    IoFields(b, io);
  }

  lemma SilentShort(b: Base)
    requires b.timer_ms.None?
    ensures b.Short()
  {
  }

  lemma IoFields(b: Base, io: Io)
    requires io in b.View().ios
    ensures io in b.ios && IoAt(b.View(), io) == StateOf(io)
    ensures StateOf(io) == IoState(io.place, io.node, io.retry_count, io.sent, io.completions, io.compl_err,
                                   io.compl_val)
  {
    ViewIos(b);
  }

  lemma SilentStates(trace: seq<State>, ms: nat) returns (io: Io)
    requires SoundRun(trace, Silence(ms)) && |trace| > 0 && trace[0].nodes == [] && trace[0].ios == map[]
    requires trace[0].timer_ms.None? && trace[0].timers == []
    ensures |trace| == 11 && io in trace[10].ios && io.op == OP_GET && io.key == 2
    ensures var v := IoAt(trace[10], io);
            && v.sent == 4
            && if ms < 1700 then v.place == Pending && v.completions == 0
               else v.place == Done && v.completions == 1 && v.err == IO_ERR_TIMEOUT
  {
    hide SoundRun, Next, Sound, Waiting;
    SilentSteps(trace, ms);
    var node := KnownFirst(trace[0], trace[1]);
    io := SubmitFirst(trace[1], trace[2], node);
    StartsWaiting(trace[2], node, io);
    Round(trace[2], trace[3], trace[4], 1700, node, io, 3);
    Round(trace[4], trace[5], trace[6], 1700, node, io, 2);
    Round(trace[6], trace[7], trace[8], 1700, node, io, 1);
    Round(trace[8], trace[9], trace[10], ms, node, io, 0);
  }

  lemma SilentSteps(trace: seq<State>, ms: nat)
    requires SoundRun(trace, Silence(ms))
    ensures |trace| == 11
    ensures forall i | 0 <= i < 10 :: Next(trace[i], Silence(ms)[i], trace[i + 1])
  {
    hide Next, Sound;
  }

  /** No timer is set, and the only IO is posted with so many retries left. */
  predicate Waiting(s: State, node: Node, io: Io, retries: nat) {
    && s.timer_ms.None? && s.timers == [] && s.nodes == [node] && node.addr == 1
    && ListsAt(s, node) == Lists([io], [], map[]) && io in s.ios && io.reply && io.compl_fn
    && var v := IoAt(s, io);
       v.place == Posted && v.node == node && v.retries == retries && v.sent + retries == 3 && v.completions == 0
  }

  lemma StartsWaiting(s: State, node: Node, io: Io)
    requires s.timer_ms.None? && s.timers == [] && s.nodes == [node] && node.addr == 1
    requires ListsAt(s, node) == Lists([io], [], map[]) && io in s.ios && io.reply && io.compl_fn
    requires var v := IoAt(s, io);
             v.place == Posted && v.node == node && v.retries == 3 && v.sent == v.completions == 0
    ensures Waiting(s, node, io, 3)
  {
  }

  /** The IO is sent, and time passes: it is still pending, or posted again, or given up. */
  lemma Round(s: State, t: State, u: State, ms: nat, node: Node, io: Io, retries: nat)
    requires Waiting(s, node, io, retries) && Next(s, Writable(1), t) && Next(t, Wait(ms), u)
    ensures io in u.ios
    ensures ms >= 1700 && retries > 0 ==> Waiting(u, node, io, retries - 1)
    ensures var v := IoAt(u, io);
            && v.sent == 4 - retries
            && (ms < 1700 ==> v.place == Pending && v.completions == 0)
            && (ms >= 1700 && retries == 0 ==> v.place == Done && v.completions == 1 && v.err == IO_ERR_TIMEOUT)
  {
    hide Next;
    SentFirst(s, t, node, io);
    SentTimer(s, t, node, io);
    Waited(t, u, ms, node, io);
  }

  lemma SentTimer(s: State, t: State, node: Node, io: Io)
    requires Next(s, Writable(1), t) && s.nodes == [node] && node.addr == 1
    requires ListsAt(s, node) == Lists([io], [], map[]) && io.reply && s.timer_ms.None? && s.timers == []
    ensures t.timer_ms.None? && t.timers == [Entry(1700, io, true)]
  {
    hide Added;
    OnlyNode(node);
    var t1 := SendsOne(s, node);
    assert ListsAt(t1, node).posted == [];
    assert Sends(s, node, 1) == Sends(t1, node, 0) == t1;
    AddedFirst(io);
  }

  lemma AddedFirst(io: Io)
    ensures Added([], 1700, io) == [Entry(1700, io, true)]
  {
  }

  lemma Waited(t: State, u: State, ms: nat, node: Node, io: Io)
    requires Next(t, Wait(ms), u) && t.timer_ms.None? && t.timers == [Entry(1700, io, true)] && t.nodes == [node]
    requires ListsAt(t, node) == Lists([], [io], map[]) && io in t.ios && IoAt(t, io).node == node
    ensures u.timer_ms.None? && u.nodes == [node] && io in u.ios
    ensures ms < 1700 ==> IoAt(u, io) == IoAt(t, io)
    ensures ms >= 1700 ==>
              && IoAt(u, io) == ExpiredIo(io, IoAt(t, io)) && u.timers == []
              && ListsAt(u, node) == Lists(if IoAt(t, io).retries == 0 then [] else [io], [], map[])
  {
    hide Dropped, Without;
    DroppedOnly(io, 0);
    WithoutOnly(io);
    if ms >= 1700 {
      assert t.timers[0 := t.timers[0].(rel_ms := 0)] == [Entry(0, io, true)];
    }
  }

  lemma DroppedOnly(io: Io, ms: nat)
    ensures Dropped([Entry(ms, io, true)], io) == []
  {
  }

  lemma WithoutOnly(io: Io)
    ensures Without([io], io) == []
  {
  }
}
