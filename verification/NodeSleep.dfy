/** The wait loop of a radio node: an AVR that sleeps until one of its wake sources has something for it. */
module NodeSleep {

  /** bano_wake_mask */
  datatype Mask = Mask(timer: bool, poll: bool, msg: bool, pcint: bool) {
    /** The timer is used for BANO_WAKE_TIMER and for BANO_WAKE_POLL. */
    predicate Timed() {
      timer || poll
    }
  }

  // The steps of bano_wait_event between which an interrupt can happen.
  const ENTRY: nat := 0
  // timer_setup
  const STOP_TIMER: nat := 1
  const CLEAR_TIMER_FLAG: nat := 2
  const START_TIMER: nat := 3
  // the first round of tests
  const TEST_TIMER: nat := 4
  const TEST_MSG: nat := 5
  const TEST_PCINT: nat := 6
  // the second round, with interrupts off, and sleep
  const CLI: nat := 7
  const RETEST_TIMER: nat := 8
  const RETEST_MSG: nat := 9
  const RETEST_PCINT: nat := 10
  const SEI_BEFORE_SLEEP: nat := 11
  const SLEEP: nat := 12
  const ASLEEP: nat := 13
  // handling what the first round has found
  const TAKE_TIMER: nat := 14
  const DISABLE_RX_IRQ: nat := 15
  const READ_PAYLOAD: nat := 16
  const ENABLE_RX_IRQ: nat := 17
  const TAKE_PCINT: nat := 18
  // timer_setup for polling
  const POLL_STOP: nat := 19
  const POLL_CLEAR: nat := 20
  const POLL_START: nat := 21
  const RETURNED: nat := 22

  datatype State = State(
    pc: nat,
    /** the interrupt flag of the CPU, and the instruction after sei during which it is not yet heeded */
    sei: bool,
    delay: bool,
    /** timer_irq and pcint_irq, set by the interrupt handlers */
    timer_irq: bool,
    pcint_irq: bool,
    /** the timer counts; its match flag; TIMSK1 */
    running: bool,
    match_flag: bool,
    timer_enabled: bool,
    /** a pin change is pending; the radio holds a message; its pin is among the enabled ones */
    pin_flag: bool,
    data_ready: bool,
    rx_irq: bool)

  /** After bano_init. */
  predicate Init(m: Mask, s: State) {
    && s.pc == ENTRY && !s.delay && !s.timer_irq && !s.pcint_irq && !s.running && !s.match_flag && !s.timer_enabled
    && !s.data_ready && s.rx_irq == m.msg
  }

  /** Interrupts are taken, unless the instruction after sei is still to come. */
  predicate Interruptible(s: State, atomic: bool) {
    s.sei && !(atomic && s.delay)
  }

  /** A handler returns to the sleeping CPU behind its sleep instruction, and so to the top of the loop. */
  function Resumed(pc: nat): nat {
    if pc == ASLEEP then TEST_TIMER else pc
  }

  /** What the hardware and the interrupt handlers can do between two steps. */
  datatype Cause = Match | PinChange | Arrival | TimerIsr | PinIsr

  predicate Possible(m: Mask, atomic: bool, s: State, c: Cause) {
    match c
    case Match => s.running
    case PinChange => m.pcint
    case Arrival => !s.data_ready
    case TimerIsr => Interruptible(s, atomic) && s.match_flag && s.timer_enabled
    case PinIsr => Interruptible(s, atomic) && s.pin_flag
  }

  /** The pin of the radio changes when a message arrives; the handlers clear the hardware's flag. */
  function Interrupted(s: State, c: Cause): State {
    match c
    case Match => s.(match_flag := true)
    case PinChange => s.(pin_flag := true)
    case Arrival => s.(data_ready := true, pin_flag := s.pin_flag || s.rx_irq)
    case TimerIsr => s.(match_flag := false, running := false, timer_irq := true, pc := Resumed(s.pc))
    case PinIsr => s.(pin_flag := false, pcint_irq := true, pc := Resumed(s.pc))
  }

  /** On to another step, an instruction later. */
  function Goto(s: State, pc: nat): State {
    s.(delay := false, pc := pc)
  }

  /** sei, which takes effect after one more instruction. */
  function Sei(s: State, pc: nat): State {
    s.(sei := true, delay := true, pc := pc)
  }

  /** timer_setup, and the instructions around it */
  function Setup(m: Mask, s: State): State {
    if s.pc == ENTRY then Sei(s, if m.Timed() then STOP_TIMER else TEST_TIMER)
    else if s.pc == STOP_TIMER then Goto(s.(running := false), CLEAR_TIMER_FLAG)
    else if s.pc == CLEAR_TIMER_FLAG then Goto(s.(timer_enabled := true, timer_irq := false), START_TIMER)
    else Goto(s.(running := true), TEST_TIMER)
  }

  /** The first round of tests. */
  function Tests(m: Mask, s: State): State {
    if s.pc == TEST_TIMER then Goto(s, if m.Timed() && s.timer_irq then TAKE_TIMER else TEST_MSG)
    else if s.pc == TEST_MSG then Goto(s, if m.msg && s.data_ready then DISABLE_RX_IRQ else TEST_PCINT)
    else Goto(s, if m.pcint && s.pcint_irq then TAKE_PCINT else CLI)
  }

  /** The second round, with interrupts off, and going to sleep. */
  function Retests(m: Mask, s: State): State {
    if s.pc == CLI then Goto(s.(sei := false), RETEST_TIMER)
    else if s.pc == RETEST_TIMER then if m.Timed() && s.timer_irq then Sei(s, TEST_TIMER) else Goto(s, RETEST_MSG)
    else if s.pc == RETEST_MSG then if m.msg && s.data_ready then Sei(s, TEST_TIMER) else Goto(s, RETEST_PCINT)
    else if s.pc == RETEST_PCINT then if m.pcint && s.pcint_irq then Sei(s, TEST_TIMER) else Goto(s, SEI_BEFORE_SLEEP)
    else if s.pc == SEI_BEFORE_SLEEP then Sei(s, SLEEP)
    else Goto(s, ASLEEP)
  }

  /** Taking an event. */
  function Take(m: Mask, s: State): State {
    if s.pc == TAKE_TIMER then Goto(s.(timer_irq := false), if m.poll then POLL_STOP else RETURNED)
    else if s.pc == DISABLE_RX_IRQ then Goto(s.(rx_irq := false), READ_PAYLOAD)
    else if s.pc == READ_PAYLOAD then Goto(s.(data_ready := false), ENABLE_RX_IRQ)
    else if s.pc == ENABLE_RX_IRQ then Goto(s.(rx_irq := true), RETURNED)
    else Goto(s.(pcint_irq := false), RETURNED)
  }

  /** Polling; no message ever comes back, so the node waits again unless the timer was wanted. */
  function Poll(m: Mask, s: State): State {
    if s.pc == POLL_STOP then Goto(s.(running := false), POLL_CLEAR)
    else if s.pc == POLL_CLEAR then Goto(s.(timer_irq := false), POLL_START)
    else if s.pc == POLL_START then Goto(s.(running := true), if m.timer then RETURNED else ENTRY)
    else Goto(s, ENTRY)
  }

  /** One step of bano_wait_event and its caller. */
  function Step(m: Mask, s: State): State {
    if s.pc < TEST_TIMER then Setup(m, s)
    else if s.pc < CLI then Tests(m, s)
    else if s.pc < ASLEEP then Retests(m, s)
    else if s.pc < POLL_STOP then Take(m, s)
    else Poll(m, s)
  }

  /** With `atomic`, as on the real CPU, the instruction after sei runs before any interrupt. */
  predicate Next(m: Mask, atomic: bool, s: State, t: State) {
    || (s.pc != ASLEEP && t == Step(m, s))
    || exists c: Cause :: Possible(m, atomic, s, c) && t == Interrupted(s, c)
  }

  predicate Run(m: Mask, atomic: bool, states: seq<State>) {
    && states != [] && Init(m, states[0])
    && forall i | 0 < i < |states| :: Next(m, atomic, states[i - 1], states[i])
  }

  // ---------------------------------------------------------------- safety

  /** Something that the node waits for has happened. */
  predicate Eventful(m: Mask, s: State) {
    (m.Timed() && s.timer_irq) || (m.msg && s.data_ready) || (m.pcint && s.pcint_irq)
  }

  /** An interrupt is about to wake the CPU. */
  predicate Waking(s: State) {
    s.sei && ((s.match_flag && s.timer_enabled) || s.pin_flag)
  }

  /** The node never sleeps through an event, and its timer never stands still while it sleeps. */
  predicate Safe(m: Mask, s: State) {
    s.pc == ASLEEP ==>
      && (Eventful(m, s) ==> Waking(s))
      && (m.Timed() ==> s.running || Waking(s))
  }

  /** The interrupt flag around the second round of tests. */
  predicate FlagOk(s: State) {
    && (CLI < s.pc <= SEI_BEFORE_SLEEP ==> !s.sei)
    && (s.pc == SLEEP ==> s.sei && s.delay)
    && (s.pc == ASLEEP ==> s.sei && !s.delay)
  }

  /** In the loop the timer has been started and not been used up; behind its second test it has not expired. */
  predicate TimerOk(s: State) {
    && (TEST_TIMER <= s.pc <= ASLEEP ==> s.timer_enabled && (s.running || s.match_flag || s.timer_irq))
    && (s.pc == START_TIMER || s.pc == TAKE_TIMER || POLL_STOP <= s.pc <= POLL_START ==> s.timer_enabled)
    && (RETEST_TIMER < s.pc <= ASLEEP ==> !s.timer_irq)
  }

  /** A message that has come after the second test has left its mark. */
  predicate MsgOk(s: State) {
    && (s.pc != READ_PAYLOAD && s.pc != ENABLE_RX_IRQ ==> s.rx_irq)
    && (RETEST_MSG < s.pc <= ASLEEP && s.data_ready ==> s.pin_flag)
  }

  predicate PcintOk(s: State) {
    RETEST_PCINT < s.pc <= ASLEEP ==> !s.pcint_irq
  }

  predicate Invariant(m: Mask, s: State) {
    FlagOk(s) && (m.Timed() ==> TimerOk(s)) && (m.msg ==> MsgOk(s)) && (m.pcint ==> PcintOk(s))
  }

  // ---------------------------------------------------------------- progress

  /** Something has happened while the node waits for it, or is being handled. */
  predicate Owed(m: Mask, s: State) {
    || (TEST_TIMER <= s.pc <= ASLEEP && Eventful(m, s))
    || TAKE_TIMER <= s.pc < POLL_STOP
    || (POLL_STOP <= s.pc <= POLL_START && m.poll)
  }

  /** The tests that are still to come in this round find it. */
  predicate Ahead(m: Mask, s: State) {
    || (s.pc <= TEST_TIMER && m.Timed() && s.timer_irq)
    || (s.pc <= TEST_MSG && m.msg && s.data_ready)
    || (s.pc <= TEST_PCINT && m.pcint && s.pcint_irq)
  }

  /** How many more steps of the node it takes at most until the wait is over. */
  function Rank(m: Mask, s: State): (n: nat)
    ensures n <= 17
  {
    if s.pc < TAKE_TIMER then
      if Ahead(m, s) then 11 - Min(s.pc, TEST_PCINT) else 21 - Max(s.pc, TEST_TIMER)
    else if s.pc == TAKE_TIMER then 4
    else if s.pc < TAKE_PCINT then TAKE_PCINT - s.pc
    else if s.pc == TAKE_PCINT then 1
    else if s.pc < RETURNED then RETURNED - s.pc
    else 0
  }

  function Min(a: nat, b: nat): nat {
    if a < b then a else b
  }

  function Max(a: nat, b: nat): nat {
    if a < b then b else a
  }

  /** From s to t the wait is over or still owed, with one step less to go where the node has made one. */
  predicate Progress(m: Mask, s: State, t: State) {
    t.pc == RETURNED || (Owed(m, t) && Rank(m, t) + (if t.pc == s.pc then 0 else 1) <= Rank(m, s))
  }

  /** What a step of the node keeps. */
  predicate Good(m: Mask, s: State, t: State) {
    && Invariant(m, t)
    && (Owed(m, s) ==> t.pc != s.pc && ((m.poll ==> m.timer) ==> Progress(m, s, t)))
  }

  // Step by step: each lemma is about one value of pc.

  lemma KeepsEntry(m: Mask, s: State, t: State)
    requires Invariant(m, s) && s.pc == ENTRY && t == Step(m, s)
    ensures Good(m, s, t)
  {
  }

  lemma KeepsStopTimer(m: Mask, s: State, t: State)
    requires Invariant(m, s) && s.pc == STOP_TIMER && t == Step(m, s)
    ensures Good(m, s, t)
  {
  }

  lemma KeepsClearTimerFlag(m: Mask, s: State, t: State)
    requires Invariant(m, s) && s.pc == CLEAR_TIMER_FLAG && t == Step(m, s)
    ensures Good(m, s, t)
  {
  }

  lemma KeepsStartTimer(m: Mask, s: State, t: State)
    requires Invariant(m, s) && s.pc == START_TIMER && t == Step(m, s)
    ensures Good(m, s, t)
  {
  }

  lemma KeepsTestTimer(m: Mask, s: State, t: State)
    requires Invariant(m, s) && s.pc == TEST_TIMER && t == Step(m, s)
    ensures Good(m, s, t)
  {
  }

  lemma KeepsTestMsg(m: Mask, s: State, t: State)
    requires Invariant(m, s) && s.pc == TEST_MSG && t == Step(m, s)
    ensures Good(m, s, t)
  {
  }

  lemma KeepsTestPcint(m: Mask, s: State, t: State)
    requires Invariant(m, s) && s.pc == TEST_PCINT && t == Step(m, s)
    ensures Good(m, s, t)
  {
  }

  lemma KeepsCli(m: Mask, s: State, t: State)
    requires Invariant(m, s) && s.pc == CLI && t == Step(m, s)
    ensures Good(m, s, t)
  {
  }

  lemma KeepsRetestTimer(m: Mask, s: State, t: State)
    requires Invariant(m, s) && s.pc == RETEST_TIMER && t == Step(m, s)
    ensures Good(m, s, t)
  {
    assert t == if m.Timed() && s.timer_irq then Sei(s, TEST_TIMER) else Goto(s, RETEST_MSG);
  }

  lemma KeepsRetestMsg(m: Mask, s: State, t: State)
    requires Invariant(m, s) && s.pc == RETEST_MSG && t == Step(m, s)
    ensures Good(m, s, t)
  {
    assert t == if m.msg && s.data_ready then Sei(s, TEST_TIMER) else Goto(s, RETEST_PCINT);
  }

  lemma KeepsRetestPcint(m: Mask, s: State, t: State)
    requires Invariant(m, s) && s.pc == RETEST_PCINT && t == Step(m, s)
    ensures Good(m, s, t)
  {
    if m.pcint && s.pcint_irq {
      assert t == Sei(s, TEST_TIMER);
    } else {
      assert t == Goto(s, SEI_BEFORE_SLEEP);
    }
  }

  lemma KeepsSeiBeforeSleep(m: Mask, s: State, t: State)
    requires Invariant(m, s) && s.pc == SEI_BEFORE_SLEEP && t == Step(m, s)
    ensures Good(m, s, t)
  {
  }

  lemma KeepsSleep(m: Mask, s: State, t: State)
    requires Invariant(m, s) && s.pc == SLEEP && t == Step(m, s)
    ensures Good(m, s, t)
  {
  }

  lemma KeepsTakeTimer(m: Mask, s: State, t: State)
    requires Invariant(m, s) && s.pc == TAKE_TIMER && t == Step(m, s)
    ensures Good(m, s, t)
  {
  }

  lemma KeepsDisableRxIrq(m: Mask, s: State, t: State)
    requires Invariant(m, s) && s.pc == DISABLE_RX_IRQ && t == Step(m, s)
    ensures Good(m, s, t)
  {
  }

  lemma KeepsReadPayload(m: Mask, s: State, t: State)
    requires Invariant(m, s) && s.pc == READ_PAYLOAD && t == Step(m, s)
    ensures Good(m, s, t)
  {
  }

  lemma KeepsEnableRxIrq(m: Mask, s: State, t: State)
    requires Invariant(m, s) && s.pc == ENABLE_RX_IRQ && t == Step(m, s)
    ensures Good(m, s, t)
  {
  }

  lemma KeepsTakePcint(m: Mask, s: State, t: State)
    requires Invariant(m, s) && s.pc == TAKE_PCINT && t == Step(m, s)
    ensures Good(m, s, t)
  {
  }

  lemma KeepsPollStop(m: Mask, s: State, t: State)
    requires Invariant(m, s) && s.pc == POLL_STOP && t == Step(m, s)
    ensures Good(m, s, t)
  {
  }

  lemma KeepsPollClear(m: Mask, s: State, t: State)
    requires Invariant(m, s) && s.pc == POLL_CLEAR && t == Step(m, s)
    ensures Good(m, s, t)
  {
  }

  lemma KeepsPollStart(m: Mask, s: State, t: State)
    requires Invariant(m, s) && s.pc == POLL_START && t == Step(m, s)
    ensures Good(m, s, t)
  {
  }

  lemma KeepsReturned(m: Mask, s: State, t: State)
    requires Invariant(m, s) && s.pc >= RETURNED && t == Step(m, s)
    ensures Good(m, s, t)
  {
  }

  lemma StepKeeps(m: Mask, s: State, t: State)
    requires Invariant(m, s) && s.pc != ASLEEP && t == Step(m, s)
    ensures Good(m, s, t)
  {
    hide Invariant, Step, Good;
    if s.pc == ENTRY {
      KeepsEntry(m, s, t);
    } else if s.pc == STOP_TIMER {
      KeepsStopTimer(m, s, t);
    } else if s.pc == CLEAR_TIMER_FLAG {
      KeepsClearTimerFlag(m, s, t);
    } else if s.pc == START_TIMER {
      KeepsStartTimer(m, s, t);
    } else if s.pc == TEST_TIMER {
      KeepsTestTimer(m, s, t);
    } else if s.pc == TEST_MSG {
      KeepsTestMsg(m, s, t);
    } else if s.pc == TEST_PCINT {
      KeepsTestPcint(m, s, t);
    } else if s.pc == CLI {
      KeepsCli(m, s, t);
    } else if s.pc == RETEST_TIMER {
      KeepsRetestTimer(m, s, t);
    } else if s.pc == RETEST_MSG {
      KeepsRetestMsg(m, s, t);
    } else if s.pc == RETEST_PCINT {
      KeepsRetestPcint(m, s, t);
    } else if s.pc == SEI_BEFORE_SLEEP {
      KeepsSeiBeforeSleep(m, s, t);
    } else if s.pc == SLEEP {
      KeepsSleep(m, s, t);
    } else if s.pc == TAKE_TIMER {
      KeepsTakeTimer(m, s, t);
    } else if s.pc == DISABLE_RX_IRQ {
      KeepsDisableRxIrq(m, s, t);
    } else if s.pc == READ_PAYLOAD {
      KeepsReadPayload(m, s, t);
    } else if s.pc == ENABLE_RX_IRQ {
      KeepsEnableRxIrq(m, s, t);
    } else if s.pc == TAKE_PCINT {
      KeepsTakePcint(m, s, t);
    } else if s.pc == POLL_STOP {
      KeepsPollStop(m, s, t);
    } else if s.pc == POLL_CLEAR {
      KeepsPollClear(m, s, t);
    } else if s.pc == POLL_START {
      KeepsPollStart(m, s, t);
    } else {
      KeepsReturned(m, s, t);
    }
  }

  lemma InterruptKeeps(m: Mask, s: State, c: Cause, t: State)
    requires Invariant(m, s) && Possible(m, true, s, c) && t == Interrupted(s, c)
    ensures Invariant(m, t)
  {
    match c
    case Match =>
    case PinChange =>
    case Arrival =>
    case TimerIsr =>
    case PinIsr =>
  }

  lemma InvariantKept(m: Mask, s: State, t: State)
    requires Invariant(m, s) && Next(m, true, s, t)
    ensures Invariant(m, t)
  {
    hide Invariant, Possible, Interrupted, Step;
    if s.pc != ASLEEP && t == Step(m, s) {
      StepKeeps(m, s, t);
    } else {
      var c: Cause :| Possible(m, true, s, c) && t == Interrupted(s, c);
      InterruptKeeps(m, s, c, t);
    }
  }

  lemma {:induction false} InvariantAlways(m: Mask, states: seq<State>, i: nat)
    requires Run(m, true, states) && i < |states|
    ensures Invariant(m, states[i])
  {
    hide Invariant, Next, Init;
    if i == 0 {
      InvariantStarts(m, states[0]);
    } else {
      InvariantAlways(m, states, i - 1);
      InvariantKept(m, states[i - 1], states[i]);
    }
  }

  lemma InvariantStarts(m: Mask, s: State)
    requires Init(m, s)
    ensures Invariant(m, s)
  {
  }

  /**
   * Under any interleaving of the interrupts with the wait loop, for every choice of wake sources: if the
   * CPU is asleep and something it waits for has happened, an interrupt is pending that wakes it.
   */
  lemma NeverSleepsThroughEvent(m: Mask, states: seq<State>, i: nat)
    requires Run(m, true, states) && i < |states|
    ensures Safe(m, states[i])
  {
    hide Run, Next, Init;
    InvariantAlways(m, states, i);
  }

  // ---------------------------------------------------------------- every event is returned

  lemma InterruptProgress(m: Mask, s: State, c: Cause)
    requires Owed(m, s) && Possible(m, true, s, c)
    ensures Progress(m, s, Interrupted(s, c))
  {
    match c
    case Match =>
    case PinChange =>
    case Arrival =>
    case TimerIsr =>
    case PinIsr =>
  }

  lemma NextProgress(m: Mask, s: State, t: State)
    requires Invariant(m, s) && Owed(m, s) && Next(m, true, s, t) && (m.poll ==> m.timer)
    ensures Progress(m, s, t)
  {
    hide Invariant, Owed, Progress, Possible, Interrupted, Step;
    if s.pc != ASLEEP && t == Step(m, s) {
      StepKeeps(m, s, t);
    } else {
      var c: Cause :| Possible(m, true, s, c) && t == Interrupted(s, c);
      InterruptProgress(m, s, c);
    }
  }

  /** The node's own steps from i to j, wake-ups included; what an interrupt does elsewhere is none. */
  function Moves(states: seq<State>, i: nat, j: nat): nat
    requires i <= j < |states|
  {
    if i == j then 0 else Moves(states, i, j - 1) + if states[j - 1].pc == states[j].pc then 0 else 1
  }

  lemma {:induction false} StillOwed(m: Mask, states: seq<State>, i: nat, j: nat)
    requires Run(m, true, states) && i <= j < |states| && Owed(m, states[i]) && (m.poll ==> m.timer)
    requires forall k | i <= k <= j :: states[k].pc != RETURNED
    ensures Owed(m, states[j]) && Moves(states, i, j) + Rank(m, states[j]) <= Rank(m, states[i])
  {
    hide Owed, Rank, Next, Init, Invariant;
    if i < j {
      StillOwed(m, states, i, j - 1);
      InvariantAlways(m, states, j - 1);
      NextProgress(m, states[j - 1], states[j]);
    }
  }

  /**
   * An event that happens while the node waits ends the wait within seventeen steps of the node, whatever
   * interrupts come in between; where the timer only drives the polling, it need not.
   */
  lemma EventReturned(m: Mask, states: seq<State>, i: nat, j: nat)
    requires Run(m, true, states) && i <= j < |states| && Owed(m, states[i]) && (m.poll ==> m.timer)
    requires Moves(states, i, j) > 17
    ensures exists k | i <= k <= j :: states[k].pc == RETURNED
  {
    hide Run, Owed, Rank, Moves;
    if forall k | i <= k <= j :: states[k].pc != RETURNED {
      StillOwed(m, states, i, j);
    }
  }

  /** Until then the node is never stuck: it can make a step, if need be by an interrupt that wakes it. */
  lemma NeverStuck(m: Mask, states: seq<State>, i: nat)
    requires Run(m, true, states) && i < |states| && Owed(m, states[i])
    ensures exists t :: Next(m, true, states[i], t) && t.pc != states[i].pc
  {
    hide Run, Step, Invariant, Owed;
    InvariantAlways(m, states, i);
    var s := states[i];
    if s.pc == ASLEEP {
      Woken(m, s);
      var c: Cause := if s.pin_flag then PinIsr else TimerIsr;
      assert Possible(m, true, s, c);
      assert Next(m, true, s, Interrupted(s, c));
    } else {
      StepKeeps(m, s, Step(m, s));
      assert Next(m, true, s, Step(m, s));
    }
  }

  lemma Woken(m: Mask, s: State)
    requires Invariant(m, s) && Owed(m, s) && s.pc == ASLEEP
    ensures Waking(s) && !s.delay
  {
  }

  // ---------------------------------------------------------------- what it rests on

  /** Waiting for the timer alone. */
  const TIMER_ONLY: Mask := Mask(true, false, false, false)

  const START: State := State(ENTRY, false, false, false, false, false, false, false, false, false, false)

  /** At the step pc of an undisturbed pass through the loop, with the timer counting. */
  function Undisturbed(pc: nat): State {
    State(pc, pc <= CLI, false, false, false, true, false, true, false, false, false)
  }

  lemma ToTheLoop() returns (states: seq<State>)
    ensures Run(TIMER_ONLY, false, states) && states[|states| - 1] == Undisturbed(TEST_TIMER)
  {
    var s1 := Step(TIMER_ONLY, START);
    var s2 := Step(TIMER_ONLY, s1);
    var s3 := Step(TIMER_ONLY, s2);
    states := [START, s1, s2, s3, Step(TIMER_ONLY, s3)];
  }

  lemma Append(m: Mask, states: seq<State>, t: State)
    requires Run(m, false, states) && Next(m, false, states[|states| - 1], t)
    ensures Run(m, false, states + [t])
  {
    hide Next, Init;
  }

  lemma {:induction false} ThroughTheLoop(n: nat) returns (states: seq<State>)
    requires TEST_TIMER <= n <= SEI_BEFORE_SLEEP
    ensures Run(TIMER_ONLY, false, states) && states[|states| - 1] == Undisturbed(n)
  {
    hide Run;
    if n == TEST_TIMER {
      states := ToTheLoop();
    } else {
      states := ThroughTheLoop(n - 1);
      assert Undisturbed(n) == Step(TIMER_ONLY, Undisturbed(n - 1));
      Append(TIMER_ONLY, states, Undisturbed(n));
      states := states + [Undisturbed(n)];
    }
  }

  /**
   * Were an interrupt taken between sei and sleep, the node could sleep through its timer: it expires
   * after the second round of tests, is handled before the sleep, and nothing wakes the CPU any more.
   */
  lemma SleepsThroughEvent() returns (states: seq<State>)
    ensures Run(TIMER_ONLY, false, states)
    ensures !Safe(TIMER_ONLY, states[|states| - 1])
  {
    hide Run;
    states := ThroughTheLoop(SEI_BEFORE_SLEEP);
    var a := Interrupted(Undisturbed(SEI_BEFORE_SLEEP), Match);
    var b := Step(TIMER_ONLY, a);
    var c := Interrupted(b, TimerIsr);
    var d := Step(TIMER_ONLY, c);
    assert Possible(TIMER_ONLY, false, Undisturbed(SEI_BEFORE_SLEEP), Match);
    assert Possible(TIMER_ONLY, false, b, TimerIsr);
    Append(TIMER_ONLY, states, a);
    Append(TIMER_ONLY, states + [a], b);
    Append(TIMER_ONLY, states + [a] + [b], c);
    Append(TIMER_ONLY, states + [a] + [b] + [c], d);
    states := states + [a] + [b] + [c] + [d];
  }
}
