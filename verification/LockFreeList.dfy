/**
 QSLIST_INSERT_HEAD_ATOMIC and QSLIST_MOVE_ATOMIC of include/qemu/queue.h as a
 transition system: any number of threads push elements onto one shared list
 with a compare-and-swap loop, and take the whole list away with an exchange.
 Every memory access of the macros is a step of its own, and the steps of the
 threads interleave in any order.  Elements that were taken away may be pushed
 again, by any thread that owns them, while other threads are still between
 reading the head and their compare-and-swap.
 */
module LockFreeList {
  import opened Options

  type Elem = int
  type Tid = int

  type Ref = Option<Elem>

  /** Where a thread stands in QSLIST_INSERT_HEAD_ATOMIC. */
  datatype Phase =
    | Idle
    | Pushing(elm: Elem)                               // about to read the head
    | HasRead(elm: Elem, saved: Ref, at: nat)      // about to store sle_next
    | HasLinked(elm: Elem, saved: Ref, at: nat)    // about to compare and swap

  /** `dest` is the private list of a thread; `mine` is what it holds. */
  datatype Thread = Thread(phase: Phase, dest: Ref, mine: seq<Elem>)

  datatype Event = Push(tid: Tid, elm: Elem) | Drain(tid: Tid)

  /** Who may touch an element; a lost one is on a list that nothing leads to any more. */
  datatype Owner = Nobody | Shared | Held(tid: Tid) | Offered(tid: Tid) | Lost

  /**
   `head` and `next` are the shared memory.  `log` records the successful
   updates of the head, `live` is the list they make, and `owner` and the `mine`
   fields say what belongs to whom; the macros know nothing of these.
   */
  datatype State = State(head: Ref, next: map<Elem, Ref>, threads: map<Tid, Thread>,
                         owner: map<Elem, Owner>, log: seq<Event>, live: seq<Elem>)

  ghost function NextOf(next: map<Elem, Ref>, e: Elem): Ref {
    if e in next then next[e] else None
  }

  // ----- what the log says

  /** The contents of the shared list after the events of `log`. */
  ghost function Live(log: seq<Event>): seq<Elem> {
    if log == [] then []
    else
      var last := log[|log| - 1];
      if last.Push? then [last.elm] + Live(log[..|log| - 1]) else []
  }

  ghost function HeadOf(s: seq<Elem>): Ref {
    if s == [] then None else Some(s[0])
  }

  /** Following `next` from `p` gives exactly the elements of `s`. */
  ghost predicate Chain(next: map<Elem, Ref>, p: Ref, s: seq<Elem>)
    decreases s
  {
    p == HeadOf(s) && (s != [] ==> Chain(next, NextOf(next, s[0]), s[1..]))
  }

  ghost predicate NoDup(s: seq<Elem>) {
    forall i, j :: 0 <= i < j < |s| ==> s[i] != s[j]
  }

  // ----- the steps

  datatype Step =
    | Begin(tid: Tid, elm: Elem)   // a thread starts to push an element nobody uses
    | BeginAgain(tid: Tid)         // ... or the first element of its private list
    | ReadHead(tid: Tid)
    | WriteNext(tid: Tid)
    | Cas(tid: Tid)
    | Move(tid: Tid)               // QSLIST_MOVE_ATOMIC into the private list, whatever that holds
    | Dispose(tid: Tid)            // a thread is done with the first element of its private list

  ghost predicate Enabled(s: State, a: Step) {
    && a.tid in s.threads
    && var t := s.threads[a.tid];
    match a
    case Begin(_, e) => t.phase.Idle? && e in s.owner && s.owner[e].Nobody?
    case BeginAgain(_) => t.phase.Idle? && t.dest.Some?
    case ReadHead(_) => t.phase.Pushing?
    case WriteNext(_) => t.phase.HasRead?
    case Cas(_) => t.phase.HasLinked?
    case Move(_) => t.phase.Idle?
    case Dispose(_) => t.phase.Idle? && t.dest.Some?
  }

  ghost function WithThread(s: State, tid: Tid, t: Thread): State {
    s.(threads := s.threads[tid := t])
  }

  ghost function Tail(s: seq<Elem>): seq<Elem> { if s == [] then [] else s[1..] }

  ghost function Apply(s: State, a: Step): State
    requires Enabled(s, a)
  {
    var t := s.threads[a.tid];
    match a
    case Begin(tid, e) =>
      WithThread(s, tid, t.(phase := Pushing(e))).(owner := s.owner[e := Offered(tid)])
    case BeginAgain(tid) =>
      var e := t.dest.value;
      WithThread(s, tid, Thread(Pushing(e), NextOf(s.next, e), Tail(t.mine))).(owner := s.owner[e := Offered(tid)])
    case ReadHead(tid) =>
      WithThread(s, tid, t.(phase := HasRead(t.phase.elm, s.head, |s.log|)))
    case WriteNext(tid) =>
      WithThread(s, tid, t.(phase := HasLinked(t.phase.elm, t.phase.saved, t.phase.at)))
        .(next := s.next[t.phase.elm := t.phase.saved])
    case Cas(tid) =>
      var e := t.phase.elm;
      if s.head == t.phase.saved
      then WithThread(s, tid, t.(phase := Idle))
             .(head := Some(e), owner := s.owner[e := Shared], log := s.log + [Push(tid, e)], live := [e] + s.live)
      else WithThread(s, tid, t.(phase := Pushing(e)))
    case Move(tid) =>
      WithThread(s, tid, t.(dest := s.head, mine := s.live))
        .(head := None, log := s.log + [Drain(tid)], live := [],
          owner := map e | e in s.owner ::
            if s.owner[e].Shared? then Held(tid) else if s.owner[e] == Held(tid) then Lost else s.owner[e])
    case Dispose(tid) =>
      var e := t.dest.value;
      WithThread(s, tid, t.(dest := NextOf(s.next, e), mine := Tail(t.mine))).(owner := s.owner[e := Nobody])
  }

  // ----- the invariant

  /** Every element belongs to one owner, and the lists are the ones the owners hold. */
  ghost predicate Owned(s: State) {
    && (forall e :: e in s.live <==> e in s.owner && s.owner[e].Shared?)
    && (forall t, e :: t in s.threads ==> (e in s.threads[t].mine <==> e in s.owner && s.owner[e] == Held(t)))
    && (forall t, e :: t in s.threads ==>
          (!s.threads[t].phase.Idle? && s.threads[t].phase.elm == e <==> e in s.owner && s.owner[e] == Offered(t)))
  }

  ghost predicate Lists(s: State) {
    && NoDup(s.live) && Chain(s.next, s.head, s.live)
    && (forall t :: t in s.threads ==> NoDup(s.threads[t].mine) && Chain(s.next, s.threads[t].dest, s.threads[t].mine))
  }

  /** What a thread remembers of the head is what the head was, and it has not changed the head itself since. */
  ghost predicate Remembers(log: seq<Event>, tid: Tid, saved: Ref, at: nat) {
    && at <= |log| && saved == HeadOf(Live(log[..at]))
    && forall i :: at <= i < |log| ==> log[i].tid != tid
  }

  ghost predicate Memory(s: State) {
    forall t :: t in s.threads ==>
      var ph := s.threads[t].phase;
      && (ph.HasRead? || ph.HasLinked? ==> Remembers(s.log, t, ph.saved, ph.at))
      && (ph.HasLinked? ==> NextOf(s.next, ph.elm) == ph.saved)
  }

  ghost predicate Inv(s: State) { Owned(s) && Lists(s) && Memory(s) && s.live == Live(s.log) }

  ghost predicate Init(s: State) {
    && s.head == None && s.log == [] && s.live == []
    && (forall t :: t in s.threads ==> s.threads[t] == Thread(Idle, None, []))
    && (forall e :: e in s.owner ==> s.owner[e] == Nobody)
  }

  lemma {:induction false} InitInv(s: State)
    requires Init(s)
    ensures Inv(s)
  {
  }

  // ----- every step keeps it

  lemma {:induction false} ChainFrame(next: map<Elem, Ref>, p: Ref, s: seq<Elem>, e: Elem, q: Ref)
    requires e !in s
    ensures Chain(next[e := q], p, s) <==> Chain(next, p, s)
    decreases s
  {
    if s != [] && p == HeadOf(s) {
      assert s[0] in s;
      ChainFrame(next, NextOf(next, s[0]), s[1..], e, q);
    }
  }

  /** Taking the first element off a chain leaves a chain. */
  lemma {:induction false} ChainTail(next: map<Elem, Ref>, p: Ref, s: seq<Elem>)
    requires Chain(next, p, s) && p.Some? && NoDup(s)
    ensures s != [] && s[0] == p.value && Chain(next, NextOf(next, p.value), s[1..])
    ensures NoDup(s[1..]) && s[0] !in s[1..] && forall e :: e in s <==> e == s[0] || e in s[1..]
  {
  }

  lemma {:induction false} LogGrows(log: seq<Event>, x: Event)
    ensures (log + [x])[..|log|] == log
    ensures Live(log + [x]) == if x.Push? then [x.elm] + Live(log) else []
  {
    assert (log + [x])[..|log|] == log;
  }

  lemma {:induction false} RemembersGrows(log: seq<Event>, x: Event, tid: Tid, saved: Ref, at: nat)
    requires Remembers(log, tid, saved, at) && x.tid != tid
    ensures Remembers(log + [x], tid, saved, at)
  {
    assert (log + [x])[..at] == log[..at];
  }

  lemma {:induction false} BeginOwned(s: State, a: Step)
    requires Inv(s) && Enabled(s, a) && a.Begin?
    ensures Owned(Apply(s, a))
  {
  }

  lemma {:induction false} BeginLists(s: State, a: Step)
    requires Inv(s) && Enabled(s, a) && a.Begin?
    ensures Lists(Apply(s, a)) && Memory(Apply(s, a)) && Apply(s, a).live == Live(Apply(s, a).log)
  {
  }

  lemma {:induction false} TakeFirst(s: State, tid: Tid)
    requires Inv(s) && tid in s.threads && s.threads[tid].dest.Some?
    ensures var t := s.threads[tid];
      var e := t.dest.value;
      && t.mine != [] && t.mine[0] == e && Tail(t.mine) == t.mine[1..] && e in s.owner && s.owner[e] == Held(tid)
      && Chain(s.next, NextOf(s.next, e), t.mine[1..]) && NoDup(t.mine[1..]) && e !in t.mine[1..]
      && forall x :: x in t.mine <==> x == e || x in t.mine[1..]
  {
    var t := s.threads[tid];
    ChainTail(s.next, t.dest, t.mine);
    assert t.mine[0] in t.mine;
  }

  lemma {:induction false} BeginAgainOwned(s: State, a: Step)
    requires Inv(s) && Enabled(s, a) && a.BeginAgain?
    ensures Owned(Apply(s, a))
  {
    TakeFirst(s, a.tid);
  }

  lemma {:induction false} BeginAgainLists(s: State, a: Step)
    requires Inv(s) && Enabled(s, a) && a.BeginAgain?
    ensures Lists(Apply(s, a)) && Memory(Apply(s, a)) && Apply(s, a).live == Live(Apply(s, a).log)
  {
    TakeFirst(s, a.tid);
  }

  lemma {:induction false} DisposeOwned(s: State, a: Step)
    requires Inv(s) && Enabled(s, a) && a.Dispose?
    ensures Owned(Apply(s, a))
  {
    TakeFirst(s, a.tid);
  }

  lemma {:induction false} DisposeLists(s: State, a: Step)
    requires Inv(s) && Enabled(s, a) && a.Dispose?
    ensures Lists(Apply(s, a)) && Memory(Apply(s, a)) && Apply(s, a).live == Live(Apply(s, a).log)
  {
    TakeFirst(s, a.tid);
  }

  lemma {:induction false} ReadInv(s: State, a: Step)
    requires Inv(s) && Enabled(s, a) && a.ReadHead?
    ensures Inv(Apply(s, a))
  {
    assert s.log[..|s.log|] == s.log;
  }

  lemma {:induction false} WriteOwned(s: State, a: Step)
    requires Inv(s) && Enabled(s, a) && a.WriteNext?
    ensures Owned(Apply(s, a))
  {
    assert s.owner[s.threads[a.tid].phase.elm] == Offered(a.tid);
  }

  lemma {:induction false} WriteMemory(s: State, a: Step)
    requires Inv(s) && Enabled(s, a) && a.WriteNext?
    ensures Memory(Apply(s, a)) && Apply(s, a).live == Live(Apply(s, a).log)
  {
    assert s.owner[s.threads[a.tid].phase.elm] == Offered(a.tid);
  }

  lemma {:induction false} WriteLists(s: State, a: Step)
    requires Inv(s) && Enabled(s, a) && a.WriteNext?
    ensures Lists(Apply(s, a))
  {
    var s', e, q := Apply(s, a), s.threads[a.tid].phase.elm, s.threads[a.tid].phase.saved;
    assert s.owner[e] == Offered(a.tid);
    ChainFrame(s.next, s.head, s.live, e, q);
    forall t | t in s'.threads
      ensures Chain(s'.next, s'.threads[t].dest, s'.threads[t].mine)
    {
      ChainFrame(s.next, s.threads[t].dest, s.threads[t].mine, e, q);
    }
  }

  /** A compare-and-swap that finds the head as it was read. */
  ghost predicate Succeeds(s: State, a: Step) {
    Enabled(s, a) && a.Cas? && s.head == s.threads[a.tid].phase.saved
  }

  lemma {:induction false} CasOwned(s: State, a: Step)
    requires Inv(s) && Succeeds(s, a)
    ensures Owned(Apply(s, a))
  {
    var s', elm := Apply(s, a), s.threads[a.tid].phase.elm;
    assert elm in s.owner && s.owner[elm] == Offered(a.tid);
    forall e ensures e in s'.live <==> e in s'.owner && s'.owner[e].Shared? {
      assert e in s'.live <==> e == elm || e in s.live;
    }
    forall t, e | t in s'.threads
      ensures e in s'.threads[t].mine <==> e in s'.owner && s'.owner[e] == Held(t)
      ensures !s'.threads[t].phase.Idle? && s'.threads[t].phase.elm == e <==> e in s'.owner && s'.owner[e] == Offered(t)
    {
      assert s'.threads[t].mine == s.threads[t].mine;
      assert e in s.threads[t].mine <==> e in s.owner && s.owner[e] == Held(t);
    }
  }

  lemma {:induction false} CasLists(s: State, a: Step)
    requires Inv(s) && Succeeds(s, a)
    ensures Lists(Apply(s, a))
  {
    var s', ph := Apply(s, a), s.threads[a.tid].phase;
    assert s.owner[ph.elm] == Offered(a.tid);
    assert s'.live[1..] == s.live;
  }

  lemma {:induction false} CasMemory(s: State, a: Step)
    requires Inv(s) && Succeeds(s, a)
    ensures Memory(Apply(s, a))
  {
    MemoryGrows(s, Apply(s, a), Push(a.tid, s.threads[a.tid].phase.elm));
  }

  lemma {:induction false} MemoryGrows(s: State, s': State, x: Event)
    requires Memory(s) && s'.log == s.log + [x] && s'.next == s.next && s'.threads.Keys == s.threads.Keys
    requires forall t :: t in s.threads && t != x.tid ==> s'.threads[t] == s.threads[t]
    requires x.tid in s.threads && s'.threads[x.tid].phase.Idle?
    ensures Memory(s')
  {
    forall t | t in s'.threads && t != x.tid
      ensures var ph := s'.threads[t].phase; ph.HasRead? || ph.HasLinked? ==> Remembers(s'.log, t, ph.saved, ph.at)
    {
      var ph := s.threads[t].phase;
      if ph.HasRead? || ph.HasLinked? { RemembersGrows(s.log, x, t, ph.saved, ph.at); }
    }
  }

  lemma {:induction false} MoveOwned(s: State, a: Step)
    requires Inv(s) && Enabled(s, a) && a.Move?
    ensures Owned(Apply(s, a))
  {
  }

  lemma {:induction false} MoveLists(s: State, a: Step)
    requires Inv(s) && Enabled(s, a) && a.Move?
    ensures Lists(Apply(s, a)) && Memory(Apply(s, a)) && Apply(s, a).live == Live(Apply(s, a).log)
  {
    LogGrows(s.log, Drain(a.tid));
    MemoryGrows(s, Apply(s, a), Drain(a.tid));
  }

  lemma {:induction false} StepInv(s: State, a: Step)
    requires Inv(s) && Enabled(s, a)
    ensures Inv(Apply(s, a))
  {
    match a
    case Begin(_, _) =>
      BeginOwned(s, a);
      BeginLists(s, a);
    case BeginAgain(_) =>
      BeginAgainOwned(s, a);
      BeginAgainLists(s, a);
    case ReadHead(_) => ReadInv(s, a);
    case WriteNext(_) =>
      WriteOwned(s, a);
      WriteMemory(s, a);
      WriteLists(s, a);
    case Cas(_) =>
      if Succeeds(s, a) {
        CasOwned(s, a);
        CasLists(s, a);
        CasMemory(s, a);
        LogGrows(s.log, Push(a.tid, s.threads[a.tid].phase.elm));
      }
    case Move(_) =>
      MoveOwned(s, a);
      MoveLists(s, a);
    case Dispose(_) =>
      DisposeOwned(s, a);
      DisposeLists(s, a);
  }

  // ----- whole runs

  /** A run: any number of threads, any interleaving of their steps. */
  ghost predicate Run(states: seq<State>, steps: seq<Step>) {
    && |states| == |steps| + 1 && Init(states[0])
    && forall i :: 0 <= i < |steps| ==> Enabled(states[i], steps[i]) && states[i + 1] == Apply(states[i], steps[i])
  }

  /** In every state of every run the lists are acyclic, and every element has one place. */
  lemma {:induction false} RunSafe(states: seq<State>, steps: seq<Step>, i: nat)
    requires Run(states, steps) && i < |states|
    ensures Inv(states[i])
  {
    if i == 0 {
      InitInv(states[0]);
    } else {
      RunSafe(states, steps, i - 1);
      StepInv(states[i - 1], steps[i - 1]);
    }
  }

  // ----- a push ends on the list

  /** A thread leaves QSLIST_INSERT_HEAD_ATOMIC only by the update that puts its element on the list. */
  lemma {:induction false} LeavesByPushing(s: State, a: Step, t: Tid)
    requires Enabled(s, a) && t in s.threads && !s.threads[t].phase.Idle?
    ensures t in Apply(s, a).threads
    ensures Apply(s, a).threads[t].phase.Idle? ==>
      a == Cas(t) && Apply(s, a).log == s.log + [Push(t, s.threads[t].phase.elm)]
    ensures !Apply(s, a).threads[t].phase.Idle? ==> Apply(s, a).threads[t].phase.elm == s.threads[t].phase.elm
  {
  }

  /** The log only grows. */
  lemma {:induction false} LogKept(s: State, a: Step)
    requires Enabled(s, a)
    ensures |s.log| <= |Apply(s, a).log| && Apply(s, a).log[..|s.log|] == s.log
  {
  }

  /** Thread `t` is pushing `e`. */
  ghost predicate Busy(s: State, t: Tid, e: Elem) {
    t in s.threads && !s.threads[t].phase.Idle? && s.threads[t].phase.elm == e
  }

  /** `t` has pushed `e` since the log had `n` events. */
  ghost predicate Logged(s: State, t: Tid, e: Elem, n: nat) {
    exists k :: n <= k < |s.log| && s.log[k] == Push(t, e)
  }

  lemma {:induction false} BusyStep(s: State, a: Step, t: Tid, e: Elem, n: nat)
    requires Enabled(s, a) && n <= |s.log| && (Busy(s, t, e) || Logged(s, t, e, n))
    ensures n <= |Apply(s, a).log| && (Busy(Apply(s, a), t, e) || Logged(Apply(s, a), t, e, n))
  {
    var s' := Apply(s, a);
    LogKept(s, a);
    if Logged(s, t, e, n) {
      var k :| n <= k < |s.log| && s.log[k] == Push(t, e);
      assert s'.log[k] == s'.log[..|s.log|][k];
    } else {
      LeavesByPushing(s, a, t);
      if s'.threads[t].phase.Idle? { assert s'.log[|s.log|] == Push(t, e); }
    }
  }

  /** In every run, a push that was under way at one time is under way at any later time, or in the log since. */
  lemma {:induction false} NoPushGivenUp(states: seq<State>, steps: seq<Step>, j: nat, i: nat, t: Tid, e: Elem)
    requires Run(states, steps) && j <= i < |states| && Busy(states[j], t, e)
    ensures Busy(states[i], t, e) || Logged(states[i], t, e, |states[j].log|)
    ensures |states[j].log| <= |states[i].log|
  {
    if j < i {
      NoPushGivenUp(states, steps, j, i - 1, t, e);
      assert Enabled(states[i - 1], steps[i - 1]) && states[i] == Apply(states[i - 1], steps[i - 1]);
      BusyStep(states[i - 1], steps[i - 1], t, e, |states[j].log|);
    }
  }

  // ----- a push can always end

  /** The next step of a thread that is pushing. */
  ghost function OwnStep(s: State, t: Tid): Step
    requires t in s.threads && !s.threads[t].phase.Idle?
  {
    match s.threads[t].phase
    case Pushing(_) => ReadHead(t)
    case HasRead(_, _, _) => WriteNext(t)
    case HasLinked(_, _, _) => Cas(t)
  }

  /** Nothing that other threads do can keep a thread from its next step. */
  lemma {:induction false} NeverBlocked(s: State, t: Tid)
    requires t in s.threads
    ensures !s.threads[t].phase.Idle? ==> Enabled(s, OwnStep(s, t))
    ensures s.threads[t].phase.Idle? ==> Enabled(s, Move(t))
    ensures s.threads[t].phase.Idle? && s.threads[t].dest.Some? ==> Enabled(s, BeginAgain(t)) && Enabled(s, Dispose(t))
    ensures s.threads[t].phase.Idle? ==> forall e :: e in s.owner && s.owner[e].Nobody? ==> Enabled(s, Begin(t, e))
  {
  }

  /** The state after `n` steps of one thread, or earlier if its push is over before. */
  ghost function Alone(s: State, t: Tid, n: nat): State
    requires t in s.threads
    ensures t in Alone(s, t, n).threads
    decreases n
  {
    if n == 0 || s.threads[t].phase.Idle? then s else Alone(Apply(s, OwnStep(s, t)), t, n - 1)
  }

  lemma {:induction false} AloneStep(s: State, t: Tid, n: nat)
    requires t in s.threads && !s.threads[t].phase.Idle? && n > 0
    ensures Enabled(s, OwnStep(s, t)) && t in Apply(s, OwnStep(s, t)).threads
    ensures Alone(s, t, n) == Alone(Apply(s, OwnStep(s, t)), t, n - 1)
  {
  }

  /** From reading the head on, a thread that is alone succeeds at once. */
  lemma {:induction false} AloneFromRead(s: State, t: Tid, n: nat)
    requires t in s.threads && s.threads[t].phase.Pushing? && n >= 3
    ensures Alone(s, t, n).log == s.log + [Push(t, s.threads[t].phase.elm)] && Alone(s, t, n).threads[t].phase.Idle?
  {
    AloneStep(s, t, n);
    var s1 := Apply(s, ReadHead(t));
    AloneStep(s1, t, n - 1);
    var s2 := Apply(s1, WriteNext(t));
    AloneStep(s2, t, n - 2);
  }

  /** A thread that is left alone for five steps has its element on the list, wherever it stood in its push. */
  lemma {:induction false} PushEnds(s: State, t: Tid)
    requires t in s.threads && !s.threads[t].phase.Idle?
    ensures Alone(s, t, 5).log == s.log + [Push(t, s.threads[t].phase.elm)] && Alone(s, t, 5).threads[t].phase.Idle?
  {
    match s.threads[t].phase
    case Pushing(_) => AloneFromRead(s, t, 5);
    case HasRead(_, _, _) =>
      AloneStep(s, t, 5);
      CasOrAgain(Apply(s, WriteNext(t)), t, 4);
    case HasLinked(_, _, _) => CasOrAgain(s, t, 5);
  }

  /** An element that nobody uses can be pushed, and so can the first one of a batch that was taken away. */
  lemma {:induction false} CanPush(s: State, t: Tid, e: Elem)
    requires Inv(s) && t in s.threads && s.threads[t].phase.Idle? && e in s.owner
    ensures s.owner[e].Nobody? ==>
      && Enabled(s, Begin(t, e)) && Busy(Apply(s, Begin(t, e)), t, e)
      && Alone(Apply(s, Begin(t, e)), t, 5).log == s.log + [Push(t, e)]
    ensures s.threads[t].mine != [] && s.threads[t].mine[0] == e ==>
      && Enabled(s, BeginAgain(t)) && Busy(Apply(s, BeginAgain(t)), t, e)
      && Apply(s, BeginAgain(t)).threads[t].mine == s.threads[t].mine[1..]
      && Alone(Apply(s, BeginAgain(t)), t, 5).log == s.log + [Push(t, e)]
  {
    if s.owner[e].Nobody? { PushEnds(Apply(s, Begin(t, e)), t); }
    if s.threads[t].mine != [] && s.threads[t].mine[0] == e {
      assert Chain(s.next, s.threads[t].dest, s.threads[t].mine);
      PushEnds(Apply(s, BeginAgain(t)), t);
    }
  }

  lemma {:induction false} CasOrAgain(s: State, t: Tid, n: nat)
    requires t in s.threads && s.threads[t].phase.HasLinked? && n >= 4
    ensures Alone(s, t, n).log == s.log + [Push(t, s.threads[t].phase.elm)] && Alone(s, t, n).threads[t].phase.Idle?
  {
    AloneStep(s, t, n);
    var s1 := Apply(s, Cas(t));
    if s.head != s.threads[t].phase.saved { AloneFromRead(s1, t, n - 1); }
  }

  ghost function Reversed(s: seq<Elem>): seq<Elem> {
    if s == [] then [] else Reversed(s[1..]) + [s[0]]
  }

  /** The elements pushed, in the order in which the compare-and-swaps succeeded. */
  ghost function Pushed(log: seq<Event>): seq<Elem> {
    if log == [] then []
    else
      var last := log[|log| - 1];
      Pushed(log[..|log| - 1]) + (if last.Push? then [last.elm] else [])
  }

  /** The batches taken away, in order; each is the list as it was at that moment. */
  ghost function Batches(log: seq<Event>): seq<seq<Elem>> {
    if log == [] then []
    else
      var last, before := log[|log| - 1], log[..|log| - 1];
      Batches(before) + (if last.Drain? then [Live(before)] else [])
  }

  ghost function InPushOrder(batches: seq<seq<Elem>>): seq<Elem> {
    if batches == [] then []
    else InPushOrder(batches[..|batches| - 1]) + Reversed(batches[|batches| - 1])
  }

  /**
   Nothing is lost, duplicated or reordered: the pushes are exactly the
   batches, each reversed, one after the other, and then the live list reversed.
   */
  lemma {:induction false} Conservation(log: seq<Event>)
    ensures Pushed(log) == InPushOrder(Batches(log)) + Reversed(Live(log))
  {
    if log != [] {
      var last, before := log[|log| - 1], log[..|log| - 1];
      Conservation(before);
      if last.Push? {
        assert ([last.elm] + Live(before))[1..] == Live(before);
        assert Batches(log) == Batches(before);
      } else {
        var bs := Batches(before) + [Live(before)];
        assert bs[..|bs| - 1] == Batches(before);
      }
    }
  }

  /** The links of the shared list spell what the log says, at every moment of every run. */
  lemma {:induction false} ListIsLog(states: seq<State>, steps: seq<Step>, i: nat)
    requires Run(states, steps) && i < |states|
    ensures var s := states[i];
      && Chain(s.next, s.head, Live(s.log)) && NoDup(Live(s.log))
      && Pushed(s.log) == InPushOrder(Batches(s.log)) + Reversed(Live(s.log))
  {
    RunSafe(states, steps, i);
    Conservation(states[i].log);
  }

  /** A thread that moves the list away can walk the whole batch, and nobody else holds any of it. */
  lemma {:induction false} MoveDelivers(s: State, a: Step)
    requires Inv(s) && Enabled(s, a) && a.Move?
    ensures var s' := Apply(s, a);
      && Batches(s'.log) == Batches(s.log) + [Live(s.log)] && Live(s'.log) == []
      && Chain(s'.next, s'.threads[a.tid].dest, Live(s.log)) && NoDup(Live(s.log))
      && forall e :: e in Live(s.log) ==> s'.owner[e] == Held(a.tid)
  {
    MoveOwned(s, a);
    MoveLists(s, a);
    LogGrows(s.log, Drain(a.tid));
    assert (s.log + [Drain(a.tid)])[..|s.log|] == s.log;
  }

  /** What a move loses is exactly what the private list held, so it loses nothing exactly when that was empty. */
  lemma {:induction false} MoveLoses(s: State, a: Step)
    requires Inv(s) && Enabled(s, a) && a.Move?
    ensures var s' := Apply(s, a);
      && (forall e :: e in s.owner ==> (s'.owner[e].Lost? <==> s.owner[e].Lost? || e in s.threads[a.tid].mine))
      && ((forall e :: e in s.owner && s'.owner[e].Lost? ==> s.owner[e].Lost?) <==> s.threads[a.tid].dest.None?)
  {
    var t := s.threads[a.tid];
    assert Chain(s.next, t.dest, t.mine);
    if t.dest.Some? {
      assert t.mine[0] in t.mine;
      assert t.mine[0] in s.owner && s.owner[t.mine[0]] == Held(a.tid);
    }
  }

  ghost predicate Reachable(s: State) {
    exists states, steps :: Run(states, steps) && states[|steps|] == s
  }

  lemma {:induction false} Reach(s: State, a: Step)
    requires Reachable(s) && Enabled(s, a)
    ensures Reachable(Apply(s, a))
  {
    var states, steps :| Run(states, steps) && states[|steps|] == s;
    LongerRun(states, steps, a, Apply(s, a));
    assert (states + [Apply(s, a)])[|steps + [a]|] == Apply(s, a);
  }

  lemma {:induction false} LongerRun(states: seq<State>, steps: seq<Step>, a: Step, s': State)
    requires Run(states, steps) && Enabled(states[|steps|], a) && s' == Apply(states[|steps|], a)
    ensures Run(states + [s'], steps + [a])
  {
    var states', steps' := states + [s'], steps + [a];
    forall i | 0 <= i < |steps'|
      ensures Enabled(states'[i], steps'[i]) && states'[i + 1] == Apply(states'[i], steps'[i])
    {
      assert states'[i] == states[i];
      if i < |steps| { assert steps'[i] == steps[i] && states'[i + 1] == states[i + 1]; }
    }
  }

  /** One push by a thread that nobody disturbs. */
  lemma {:induction false} PushAlone(s: State, tid: Tid, e: Elem) returns (s': State)
    requires Reachable(s) && tid in s.threads && s.threads[tid].phase.Idle? && e in s.owner && s.owner[e].Nobody?
    ensures Reachable(s') && s'.head == Some(e) && s'.owner == s.owner[e := Offered(tid)][e := Shared]
    ensures s'.threads.Keys == s.threads.Keys && s'.threads[tid] == s.threads[tid].(phase := Idle)
    ensures s'.live == [e] + s.live
  {
    Reach(s, Begin(tid, e));
    var s1 := Apply(s, Begin(tid, e));
    Reach(s1, ReadHead(tid));
    var s2 := Apply(s1, ReadHead(tid));
    Reach(s2, WriteNext(tid));
    var s3 := Apply(s2, WriteNext(tid));
    Reach(s3, Cas(tid));
    s' := Apply(s3, Cas(tid));
  }

  /** One thread, and two elements that nobody uses. */
  ghost function Start(tid: Tid, x: Elem, y: Elem): State {
    State(None, map[], map[tid := Thread(Idle, None, [])], map[x := Nobody, y := Nobody], [], [])
  }

  /** Push, move, push, move: the element of the first batch is lost. */
  lemma {:induction false} SecondMoveLoses(tid: Tid, x: Elem, y: Elem) returns (s: State)
    requires x != y
    ensures Reachable(s) && x in s.owner && s.owner[x].Lost?
    ensures tid in s.threads && s.threads[tid].mine == [y]
  {
    var s0 := Start(tid, x, y);
    assert Run([s0], []);
    var s1 := PushAlone(s0, tid, x);
    var s2 := MoveAlone(s1, tid);
    var s3 := PushAlone(s2, tid, y);
    s := MoveAlone(s3, tid);
  }

  lemma {:induction false} MoveAlone(s: State, tid: Tid) returns (s': State)
    requires Reachable(s) && tid in s.threads && s.threads[tid].phase.Idle?
    ensures Reachable(s') && s'.threads.Keys == s.threads.Keys && s'.owner.Keys == s.owner.Keys
    ensures s'.threads[tid].phase.Idle? && s'.threads[tid].mine == s.live && s'.live == []
    ensures forall e :: e in s.owner ==>
      s'.owner[e] == if s.owner[e].Shared? then Held(tid) else if s.owner[e] == Held(tid) then Lost else s.owner[e]
  {
    Reach(s, Move(tid));
    s' := Apply(s, Move(tid));
  }

  /** In a run that only moves into empty private lists nothing is ever lost. */
  lemma {:induction false} NothingLost(states: seq<State>, steps: seq<Step>, i: nat)
    requires Run(states, steps) && i < |states|
    requires forall j :: 0 <= j < |steps| && steps[j].Move? ==> states[j].threads[steps[j].tid].dest.None?
    ensures forall e :: e in states[i].owner ==> !states[i].owner[e].Lost?
  {
    if i > 0 {
      NothingLost(states, steps, i - 1);
      RunSafe(states, steps, i - 1);
      var s, a := states[i - 1], steps[i - 1];
      assert Enabled(s, a) && states[i] == Apply(s, a);
      if a.Move? { MoveLoses(s, a); }
    }
  }

  /**
   A compare-and-swap that succeeds puts its element in front of the list as it
   is now, even if the head was changed and changed back in the meantime.
   */
  lemma {:induction false} CasPushes(s: State, a: Step)
    requires Inv(s) && Enabled(s, a) && a.Cas? && s.head == s.threads[a.tid].phase.saved
    ensures var s', e := Apply(s, a), s.threads[a.tid].phase.elm;
      Live(s'.log) == [e] + Live(s.log) && Chain(s'.next, s'.head, [e] + Live(s.log))
  {
    CasLists(s, a);
    LogGrows(s.log, Push(a.tid, s.threads[a.tid].phase.elm));
  }

  /** If the head is not what it was, one of the events in between changed it. */
  lemma {:induction false} SomeoneChangedHead(log: seq<Event>, at: nat) returns (i: nat)
    requires at <= |log| && HeadOf(Live(log[..at])) != HeadOf(Live(log))
    ensures at <= i < |log| && HeadOf(Live(log[..i])) != HeadOf(Live(log[..i + 1]))
  {
    i := at;
    assert log[..|log|] == log;
    while HeadOf(Live(log[..i])) == HeadOf(Live(log[..i + 1]))
      invariant at <= i < |log| && HeadOf(Live(log[..i])) == HeadOf(Live(log[..at]))
      decreases |log| - i
    {
      i := i + 1;
    }
  }

  /** A compare-and-swap fails only because another thread has changed the head since it was read. */
  lemma {:induction false} CasFails(s: State, a: Step) returns (i: nat)
    requires Inv(s) && Enabled(s, a) && a.Cas? && s.head != s.threads[a.tid].phase.saved
    ensures s.threads[a.tid].phase.at <= i < |s.log| && s.log[i].tid != a.tid
    ensures HeadOf(Live(s.log[..i])) != HeadOf(Live(s.log[..i + 1]))
    ensures Live(Apply(s, a).log) == Live(s.log) && Apply(s, a).next == s.next
  {
    i := SomeoneChangedHead(s.log, s.threads[a.tid].phase.at);
  }
}
