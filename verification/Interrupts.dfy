/**
 How the main flow and the timer signal share one global lock
 (env/userspace/signal-timer.c, src/env-timer.c, src/qemu/cpus.c).  The main
 flow blocks the signal before it takes the lock and unblocks it afterwards; the
 signal handler takes the same lock.  A signal can arrive between any two steps,
 in the handler too, whenever the kernel's mask lets it through.
 */
module Interrupts {
  datatype Instr =
    | Check(flag: Flag, value: bool)   // assert
    | Store(flag: Flag, value: bool)
    | SetMask(masked: bool)            // sigprocmask(SIG_SETMASK, ...)
    | Acquire | Release                // the mutex
    | Work                             // anything that touches none of this

  /** __blocked, __interrupt_context and iothread_locked */
  datatype Flag = Blocked | Context | Locked

  /** A handler that is running, and the signal mask to restore when it returns. */
  datatype Frame = Frame(pc: nat, saved: bool)

  /** `frames` holds the running handlers, the innermost last; `failed` is an assertion failure or a deadlock. */
  datatype State = State(pc: nat, frames: seq<Frame>, masked: bool,
                         blocked: bool, context: bool, locked: bool, held: bool, failed: bool)

  /** The order of the two updates in block_interrupt and in unblock_interrupt. */
  datatype Order = Order(maskThenFlag: bool, flagThenUnmask: bool)

  /** The order in the source. */
  const SOURCE := Order(true, true)

  const PROGRAM_LENGTH := 16
  const HANDLER_LENGTH := 13

  /**
   qemu_mutex_lock_iothread_impl, work, qemu_mutex_unlock_iothread, work, and
   then again from the start.
   */
  function Program(o: Order, pc: nat): Instr {
    match pc
    // block_interrupt
    case 0 => Check(Blocked, false)
    case 1 => Check(Context, false)
    case 2 => if o.maskThenFlag then SetMask(true) else Store(Blocked, true)
    case 3 => if o.maskThenFlag then Store(Blocked, true) else SetMask(true)
    // native_qemu_mutex_lock_iothread_impl
    case 4 => Check(Locked, false)
    case 5 => Acquire
    case 6 => Store(Locked, true)
    case 7 => Work
    // native_qemu_mutex_unlock_iothread
    case 8 => Check(Locked, true)
    case 9 => Release
    case 10 => Store(Locked, false)
    // unblock_interrupt
    case 11 => Check(Blocked, true)
    case 12 => Check(Context, false)
    case 13 => if o.flagThenUnmask then Store(Blocked, false) else SetMask(false)
    case 14 => if o.flagThenUnmask then SetMask(false) else Store(Blocked, false)
    case _ => Work
  }

  /** timer_handler */
  function Handler(pc: nat): Instr {
    match pc
    // enter_interrpt_context
    case 0 => Check(Locked, false)
    case 1 => Acquire
    case 2 => Store(Locked, true)
    case 3 => Check(Blocked, false)
    case 4 => Check(Context, false)
    case 5 => Store(Context, true)
    // the handler that was set up
    case 6 => Work
    // leave_interrpt_context
    case 7 => Check(Locked, true)
    case 8 => Release
    case 9 => Store(Locked, false)
    case 10 => Check(Blocked, false)
    case 11 => Check(Context, true)
    case _ => Store(Context, false)
  }

  function Get(s: State, f: Flag): bool {
    match f
    case Blocked => s.blocked
    case Context => s.context
    case Locked => s.locked
  }

  /** One instruction.  Taking a mutex that is held would wait for ever: its holder is below on the stack. */
  function Execute(s: State, i: Instr): State {
    match i
    case Check(f, v) => s.(failed := s.failed || Get(s, f) != v)
    case Store(Blocked, v) => s.(blocked := v)
    case Store(Context, v) => s.(context := v)
    case Store(Locked, v) => s.(locked := v)
    case SetMask(m) => s.(masked := m)
    case Acquire => s.(held := true, failed := s.failed || s.held)
    case Release => s.(held := false, failed := s.failed || !s.held)
    case Work => s
  }

  /** Where the main flow may leave out the lock and its release. */
  const AFTER_BLOCK := 4
  const BEFORE_UNBLOCK := 11

  datatype Step =
    | Main      // the main flow executes an instruction
    | SkipLock  // the main flow goes from block_interrupt to unblock_interrupt at once
    | Handle    // the innermost handler executes an instruction, or returns
    | Signal    // the timer signal is delivered

  /** A step that is not possible changes nothing. */
  function Next(o: Order, s: State, step: Step): State {
    var n := |s.frames|;
    match step
    case Main =>
      if n > 0 then s
      else Execute(s, Program(o, s.pc)).(pc := (s.pc + 1) % PROGRAM_LENGTH)
    case SkipLock =>
      if n > 0 || s.pc != AFTER_BLOCK then s else s.(pc := BEFORE_UNBLOCK)
    case Handle =>
      if n == 0 then s
      else
        var top := s.frames[n - 1];
        if top.pc < HANDLER_LENGTH then
          Execute(s, Handler(top.pc)).(frames := s.frames[n - 1 := top.(pc := top.pc + 1)])
        else
          s.(frames := s.frames[..n - 1], masked := top.saved)
    case Signal =>
      if s.masked then s
      else s.(frames := s.frames + [Frame(0, s.masked)], masked := true)
  }

  const INIT := State(0, [], false, false, false, false, false, false)

  /** The state after a run, the last step last. */
  function Run(o: Order, steps: seq<Step>): State {
    if steps == [] then INIT else Next(o, Run(o, steps[..|steps| - 1]), steps[|steps| - 1])
  }

  // ----- safety of the order in the source

  /** What the flags are when the main flow stands at `pc` and no handler runs. */
  predicate MainState(s: State) {
    && s.pc < 16 && !s.context
    && s.masked == (3 <= s.pc <= 14)
    && s.blocked == (4 <= s.pc <= 13)
    && s.held == (6 <= s.pc <= 9)
    && s.locked == (7 <= s.pc <= 10)
  }

  /** What they are when the handler stands at `h`. */
  predicate HandlerState(s: State, h: nat) {
    && (s.pc <= 2 || s.pc == 15) && h <= 13
    && s.masked && !s.blocked
    && s.held == (2 <= h <= 8) && s.locked == (3 <= h <= 9) && s.context == (6 <= h <= 12)
  }

  predicate Inv(s: State) {
    && !s.failed && |s.frames| <= 1
    && (s.frames == [] ==> MainState(s))
    && (|s.frames| == 1 ==> HandlerState(s, s.frames[0].pc) && !s.frames[0].saved)
  }

  lemma {:induction false} MainStep(s: State)
    requires Inv(s)
    ensures Inv(Next(SOURCE, s, Main))
  {
  }

  lemma {:induction false} HandlerStep(s: State)
    requires Inv(s)
    ensures Inv(Next(SOURCE, s, Handle))
  {
  }

  /** Every step keeps the flags in line with where the two flows stand. */
  lemma {:induction false} StepInv(s: State, step: Step)
    requires Inv(s)
    ensures Inv(Next(SOURCE, s, step))
  {
    match step
    case Main => MainStep(s);
    case Handle => HandlerStep(s);
    case SkipLock =>
    case Signal =>
  }

  lemma {:induction false} RunInv(steps: seq<Step>)
    ensures Inv(Run(SOURCE, steps))
  {
    if steps != [] {
      var n := |steps| - 1;
      RunInv(steps[..n]);
      StepInv(Run(SOURCE, steps[..n]), steps[n]);
    }
  }

  /** The main flow is between taking the lock and giving it back. */
  predicate InCriticalSection(s: State) { 6 <= s.pc <= 9 }

  /**
   No assertion fails and nothing deadlocks; handlers do not nest; `__blocked`
   means that the signal is masked, and no handler runs then; and no handler
   runs during the critical section of the main flow.
   */
  predicate Safe(s: State) {
    && !s.failed && |s.frames| <= 1 && (s.blocked ==> s.masked)
    && (s.frames != [] ==> !s.blocked && !InCriticalSection(s))
  }

  lemma {:induction false} AlwaysSafe(steps: seq<Step>)
    ensures Safe(Run(SOURCE, steps))
  {
    RunInv(steps);
  }

  // ----- the two flows do what they are for

  /** The state after `n` more steps of one kind. */
  function Repeat(s: State, step: Step, n: nat): State {
    if n == 0 then s else Next(SOURCE, Repeat(s, step, n - 1), step)
  }

  lemma {:induction false} Follows(at: nat -> State, step: Step, m: nat, n: nat)
    requires forall k: nat :: m <= k < m + n ==> Next(SOURCE, at(k), step) == at(k + 1)
    ensures Repeat(at(m), step, n) == at(m + n)
  {
    if n > 0 { Follows(at, step, m, n - 1); }
  }

  /** A state `s` with a handler at `h`. */
  function InHandler(s: State, h: nat): State {
    s.(frames := [Frame(h, false)], masked := true,
       held := 2 <= h <= 8, locked := 3 <= h <= 9, context := 6 <= h <= 12)
  }

  /** No handler runs, and nothing keeps a signal away. */
  predicate Open(s: State) { Inv(s) && s.frames == [] && !s.masked }

  lemma {:induction false} Entered(s: State)
    requires Open(s)
    ensures Next(SOURCE, s, Signal) == InHandler(s, 0)
  {
    assert s.frames + [Frame(0, false)] == [Frame(0, false)];
  }

  lemma {:induction false} HandlerAt(s: State, h: nat)
    requires Open(s) && h < HANDLER_LENGTH
    ensures Next(SOURCE, InHandler(s, h), Handle) == InHandler(s, h + 1)
  {
    NextHandler(SOURCE, InHandler(s, h), h, Handler(h));
  }

  lemma {:induction false} HandlerAfter(s: State, h: nat)
    requires Open(s) && h <= HANDLER_LENGTH
    ensures Repeat(Next(SOURCE, s, Signal), Handle, h) == InHandler(s, h)
  {
    if h == 0 {
      Entered(s);
    } else {
      HandlerAfter(s, h - 1);
      HandlerAt(s, h - 1);
    }
  }

  lemma {:induction false} HandlerReturns(s: State)
    requires Open(s)
    ensures Next(SOURCE, InHandler(s, HANDLER_LENGTH), Handle) == s
  {
    var t := InHandler(s, HANDLER_LENGTH);
    assert t.frames[..0] == [];
  }

  /**
   Whatever has happened before, a signal that is not masked is delivered: the
   handler takes the lock, runs in interrupt context, gives the lock back, and
   returns to the state that the signal found.
   */
  lemma {:induction false} SignalServed(steps: seq<Step>)
    ensures var s := Run(SOURCE, steps);
      s.frames == [] && !s.masked ==>
        var t := Next(SOURCE, s, Signal);
        && |t.frames| == 1 && t.masked
        && Repeat(t, Handle, 6).context && Repeat(t, Handle, 6).held && Repeat(t, Handle, 6).locked
        && |Repeat(t, Handle, 13).frames| == 1 && Repeat(t, Handle, 14) == s
  {
    RunInv(steps);
    var s := Run(SOURCE, steps);
    if s.frames == [] && !s.masked {
      Entered(s);
      HandlerAfter(s, 6);
      HandlerAfter(s, HANDLER_LENGTH);
      HandlerReturns(s);
    }
  }

  /** A signal that is masked stays away, and a handler keeps the signal masked until it returns. */
  lemma {:induction false} SignalWaits(steps: seq<Step>)
    ensures var s := Run(SOURCE, steps);
      && (s.masked ==> Next(SOURCE, s, Signal) == s)
      && (s.frames != [] ==> s.masked && Next(SOURCE, s, Main) == s)
  {
    RunInv(steps);
  }

  /** The main flow at `pc`, with no handler. */
  function InMain(pc: nat): State {
    State(pc, [], 3 <= pc <= 14, 4 <= pc <= 13, false, 7 <= pc <= 10, 6 <= pc <= 9, false)
  }

  lemma {:induction false} ExecuteAt(pc: nat)
    requires pc < 15
    ensures Execute(InMain(pc), Program(SOURCE, pc)).(pc := pc + 1) == InMain(pc + 1)
  {
  }

  lemma {:induction false} MainAt(pc: nat)
    requires pc < 15
    ensures Next(SOURCE, InMain(pc), Main) == InMain(pc + 1)
  {
    ExecuteAt(pc);
    NextMain(SOURCE, InMain(pc), Program(SOURCE, pc));
  }

  lemma {:induction false} MainAfter(pc: nat, n: nat)
    requires pc + n < PROGRAM_LENGTH
    ensures Repeat(InMain(pc), Main, n) == InMain(pc + n)
  {
    forall k: nat | pc <= k < pc + n ensures Next(SOURCE, InMain(k), Main) == InMain(k + 1) {
      MainAt(k);
    }
    Follows(InMain, Main, pc, n);
  }

  lemma {:induction false} RoundEnds()
    ensures Next(SOURCE, InMain(15), Main) == INIT
  {
  }

  lemma {:induction false} RestOfRound(pc: nat)
    requires pc < PROGRAM_LENGTH
    ensures Repeat(InMain(pc), Main, PROGRAM_LENGTH - pc) == INIT
  {
    MainAfter(pc, 15 - pc);
    RoundEnds();
  }

  lemma {:induction false} StateIsMain(s: State)
    requires Inv(s) && s.frames == []
    ensures s == InMain(s.pc)
  {
  }

  /**
   Whenever no handler runs, the main flow can go on by itself to the end of its
   round; from the start of a round it blocks the signal, holds the lock, gives it
   back, and after sixteen instructions is where it was.
   */
  lemma {:induction false} MainServed(steps: seq<Step>)
    ensures var s := Run(SOURCE, steps);
      s.frames == [] ==> s.pc < 16 && Repeat(s, Main, 16 - s.pc) == INIT
  {
    RunInv(steps);
    var s := Run(SOURCE, steps);
    if s.frames == [] {
      StateIsMain(s);
      RestOfRound(s.pc);
    }
  }

  /** Left alone, the main flow masks, blocks, holds the lock and gives everything back at these points of a round. */
  lemma {:induction false} RoundServed(steps: seq<Step>, n: nat)
    requires n < PROGRAM_LENGTH
    ensures var s, t := Run(SOURCE, steps), Repeat(Run(SOURCE, steps), Main, n);
      s.frames == [] && s.pc == 0 ==>
        && t.pc == n && t.frames == [] && !t.context && !t.failed
        && (t.masked <==> 3 <= n <= 14) && (t.blocked <==> 4 <= n <= 13)
        && (t.held <==> 6 <= n <= 9) && (t.locked <==> 7 <= n <= 10)
  {
    RunInv(steps);
    var s := Run(SOURCE, steps);
    if s.frames == [] && s.pc == 0 {
      StateIsMain(s);
      MainAfter(0, n);
    }
  }

  // ----- the order is what makes it safe

  ghost predicate Reachable(o: Order, s: State) { exists steps :: Run(o, steps) == s }

  lemma {:induction false} Reach(o: Order, s: State, step: Step)
    requires Reachable(o, s)
    ensures Reachable(o, Next(o, s, step))
  {
    var steps :| Run(o, steps) == s;
    assert (steps + [step])[..|steps|] == steps;
    assert Run(o, steps + [step]) == Next(o, s, step);
  }

  lemma {:induction false} NextMain(o: Order, s: State, i: Instr)
    requires s.frames == [] && s.pc < 15 && Program(o, s.pc) == i
    ensures Next(o, s, Main) == Execute(s, i).(pc := s.pc + 1)
  {
  }

  lemma {:induction false} ReachMain(o: Order, s: State, i: Instr)
    requires Reachable(o, s) && s.frames == [] && s.pc < 15 && Program(o, s.pc) == i
    ensures Reachable(o, Execute(s, i).(pc := s.pc + 1))
  {
    NextMain(o, s, i);
    Reach(o, s, Main);
  }

  lemma {:induction false} NextHandler(o: Order, s: State, h: nat, i: Instr)
    requires s.frames == [Frame(h, false)] && h < HANDLER_LENGTH && Handler(h) == i
    ensures Next(o, s, Handle) == Execute(s, i).(frames := [Frame(h + 1, false)])
  {
    assert s.frames[0 := Frame(h + 1, false)] == [Frame(h + 1, false)];
  }

  lemma {:induction false} ReachHandler(o: Order, s: State, h: nat, i: Instr)
    requires Reachable(o, s) && s.frames == [Frame(h, false)] && h < HANDLER_LENGTH && Handler(h) == i
    ensures Reachable(o, Execute(s, i).(frames := [Frame(h + 1, false)]))
  {
    NextHandler(o, s, h, i);
    Reach(o, s, Handle);
  }

  /** The state in which the flag is up and the mask is down, with the handler at `h`. */
  function Exposed(pc: nat, h: nat, locked: bool, held: bool): State {
    State(pc, [Frame(h, false)], true, true, false, locked, held, false)
  }

  lemma {:induction false} SignalComes(o: Order, pc: nat)
    requires Reachable(o, INIT.(pc := pc, blocked := true))
    ensures Reachable(o, Exposed(pc, 0, false, false))
  {
    var s := INIT.(pc := pc, blocked := true);
    assert s.frames + [Frame(0, false)] == [Frame(0, false)];
    assert Next(o, s, Signal) == Exposed(pc, 0, false, false);
    Reach(o, s, Signal);
  }

  lemma {:induction false} ExposedStep(o: Order, pc: nat, h: nat, locked: bool, held: bool, i: Instr,
                                       locked': bool, held': bool)
    requires Reachable(o, Exposed(pc, h, locked, held)) && h < HANDLER_LENGTH && Handler(h) == i
    requires Execute(Exposed(pc, h, locked, held), i).(frames := [Frame(h + 1, false)])
          == Exposed(pc, h + 1, locked', held')
    ensures Reachable(o, Exposed(pc, h + 1, locked', held'))
  {
    ReachHandler(o, Exposed(pc, h, locked, held), h, i);
  }

  lemma {:induction false} HandlerLocks(o: Order, pc: nat)
    requires Reachable(o, Exposed(pc, 0, false, false))
    ensures Reachable(o, Exposed(pc, 3, true, true))
  {
    ExposedStep(o, pc, 0, false, false, Check(Locked, false), false, false);
    ExposedStep(o, pc, 1, false, false, Acquire, false, true);
    ExposedStep(o, pc, 2, false, true, Store(Locked, true), true, true);
  }

  /** The signal arrives while the flag is up and the mask is down: the handler's assertion fails. */
  lemma {:induction false} HandlerFails(o: Order, pc: nat)
    requires Reachable(o, INIT.(pc := pc, blocked := true))
    ensures exists steps :: Run(o, steps).failed
  {
    SignalComes(o, pc);
    HandlerLocks(o, pc);
    var s := Exposed(pc, 3, true, true);
    ReachHandler(o, s, 3, Check(Blocked, false));
    var steps :| Run(o, steps) == Execute(s, Check(Blocked, false)).(frames := [Frame(4, false)]);
  }

  /** block_interrupt up to its two updates. */
  lemma {:induction false} ReachBlock(o: Order)
    ensures Reachable(o, INIT.(pc := 2))
  {
    assert Run(o, []) == INIT;
    ReachMain(o, INIT, Check(Blocked, false));
    ReachMain(o, INIT.(pc := 1), Check(Context, false));
  }

  /** If the flag goes up first, the signal can come before it is masked. */
  lemma {:induction false} FlagTooEarly(o: Order)
    requires !o.maskThenFlag
    ensures Reachable(o, INIT.(pc := 3, blocked := true))
  {
    ReachBlock(o);
    ReachMain(o, INIT.(pc := 2), Store(Blocked, true));
  }

  lemma {:induction false} ReachBlocked(o: Order)
    requires o.maskThenFlag
    ensures Reachable(o, INIT.(pc := 11, masked := true, blocked := true))
  {
    ReachBlock(o);
    ReachMain(o, INIT.(pc := 2), SetMask(true));
    ReachMain(o, INIT.(pc := 3, masked := true), Store(Blocked, true));
    Reach(o, INIT.(pc := 4, masked := true, blocked := true), SkipLock);
  }

  /** unblock_interrupt up to its two updates. */
  lemma {:induction false} ReachUnblock(o: Order)
    requires o.maskThenFlag
    ensures Reachable(o, INIT.(pc := 13, masked := true, blocked := true))
  {
    ReachBlocked(o);
    var s := INIT.(pc := 11, masked := true, blocked := true);
    ReachMain(o, s, Check(Blocked, true));
    assert Execute(s, Check(Blocked, true)).(pc := 12) == s.(pc := 12);
    ReachMain(o, s.(pc := 12), Check(Context, false));
    assert Execute(s.(pc := 12), Check(Context, false)).(pc := 13) == s.(pc := 13);
  }

  /** If the signal is let through first, it can come before the flag goes down. */
  lemma {:induction false} FlagTooLate(o: Order)
    requires o.maskThenFlag && !o.flagThenUnmask
    ensures Reachable(o, INIT.(pc := 14, blocked := true))
  {
    ReachUnblock(o);
    ReachMain(o, INIT.(pc := 13, masked := true, blocked := true), SetMask(false));
  }

  /** Of the four orders, the one in the source is the only one in which no assertion can fail. */
  lemma {:induction false} OrderMatters(o: Order)
    ensures (forall steps :: !Run(o, steps).failed) <==> o == SOURCE
  {
    if o == SOURCE {
      forall steps ensures !Run(o, steps).failed { AlwaysSafe(steps); }
    } else if o.maskThenFlag {
      FlagTooLate(o);
      HandlerFails(o, 14);
    } else {
      FlagTooEarly(o);
      HandlerFails(o, 3);
    }
  }

  // ----- what a failure is

  /** The assertion holds, and the mutex is free to be taken, or is there to be given back. */
  predicate Passes(s: State, i: Instr) {
    match i
    case Check(Blocked, v) => s.blocked == v
    case Check(Context, v) => s.context == v
    case Check(Locked, v) => s.locked == v
    case Acquire => !s.held
    case Release => s.held
    case _ => true
  }

  /** What the step executes, if it executes anything, passes. */
  predicate StepPasses(o: Order, s: State, step: Step) {
    var n := |s.frames|;
    && (step == Main && n == 0 ==> Passes(s, Program(o, s.pc)))
    && (step == Handle && n > 0 && s.frames[n - 1].pc < HANDLER_LENGTH ==> Passes(s, Handler(s.frames[n - 1].pc)))
  }

  lemma {:induction false} ExecuteFails(s: State, i: Instr)
    ensures Execute(s, i).failed <==> s.failed || !Passes(s, i)
  {
    match i
    case Check(f, v) => match f { case Blocked => case Context => case Locked => }
    case Store(f, v) => match f { case Blocked => case Context => case Locked => }
    case SetMask(m) =>
    case Acquire =>
    case Release =>
    case Work =>
  }

  lemma {:induction false} StepFails(o: Order, s: State, step: Step)
    ensures Next(o, s, step).failed <==> s.failed || !StepPasses(o, s, step)
  {
    var n := |s.frames|;
    if step == Main && n == 0 {
      ExecuteFails(s, Program(o, s.pc));
    } else if step == Handle && n > 0 && s.frames[n - 1].pc < HANDLER_LENGTH {
      ExecuteFails(s, Handler(s.frames[n - 1].pc));
    }
  }

  predicate FailsAt(o: Order, steps: seq<Step>, i: nat) {
    i < |steps| && !StepPasses(o, Run(o, steps[..i]), steps[i])
  }

  lemma {:induction false} OneStepOn(o: Order, steps: seq<Step>, i: nat)
    requires i < |steps|
    ensures Run(o, steps[..i + 1]).failed <==> Run(o, steps[..i]).failed || FailsAt(o, steps, i)
  {
    assert steps[..i + 1][..i] == steps[..i];
    StepFails(o, Run(o, steps[..i]), steps[i]);
  }

  /** A flag that goes up at the marks and never down is up exactly when there was a mark. */
  lemma {:induction false} UpAtMarks(flags: seq<bool>, marks: seq<bool>)
    requires |flags| == |marks| + 1 && !flags[0]
    requires forall i :: 0 <= i < |marks| ==> (flags[i + 1] <==> flags[i] || marks[i])
    ensures flags[|marks|] <==> exists i :: 0 <= i < |marks| && marks[i]
  {
    if marks != [] {
      var n := |marks| - 1;
      UpAtMarks(flags[..n + 1], marks[..n]);
      assert marks == marks[..n] + [marks[n]];
    }
  }

  /** A run has failed exactly when one of its steps did not pass. */
  lemma {:induction false} FailedIff(o: Order, steps: seq<Step>)
    ensures Run(o, steps).failed <==> exists i :: FailsAt(o, steps, i)
  {
    var n := |steps|;
    var flags := seq(n + 1, i requires 0 <= i <= n => Run(o, steps[..i]).failed);
    var marks := seq(n, i requires 0 <= i < n => FailsAt(o, steps, i));
    forall i | 0 <= i < n ensures flags[i + 1] <==> flags[i] || marks[i] {
      OneStepOn(o, steps, i);
    }
    UpAtMarks(flags, marks);
    assert steps[..n] == steps;
    if i: nat :| FailsAt(o, steps, i) {
      assert marks[i];
    }
  }

  /** In every reachable state of the source's order, whatever may be executed next passes. */
  lemma {:induction false} EveryStepPasses(steps: seq<Step>, step: Step)
    ensures StepPasses(SOURCE, Run(SOURCE, steps), step)
  {
    AlwaysSafe(steps + [step]);
    assert (steps + [step])[..|steps|] == steps;
    StepFails(SOURCE, Run(SOURCE, steps), step);
  }
}
