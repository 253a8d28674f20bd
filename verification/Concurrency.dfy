/**
 What holds over every run of the threads: the invariants of modules Threads, Synch and
 Conditions together, and the guarantees a user of the primitives relies on.
 */
module Concurrency {
  import opened Common = Base
  import opened Threads
  import opened Synch
  import opened Conditions

  ghost predicate Inv(st: State) {
    Base(st) && NoneLost(st.threads, st.semas) && Accounted(st.semas) && Locks(st) && Conds(st)
  }

  /** After `thread_start`: the initial thread runs, the idle thread sleeps, every primitive is as initialised. */
  ghost predicate Fresh(st: State) {
    && st.threads == map[1 := Thread(Running, User), 2 := Thread(Blocked, User)]
    && st.ready == [] && st.current == 1 && st.idle == 2 && st.nextTid == 3
    && (forall s :: s in st.semas ==> st.semas[s].waiters == [] && st.semas[s].value == st.semas[s].init
                                      && st.semas[s].ups == 0 && st.semas[s].downs == 0)
    && (forall l :: l in st.holders ==>
           st.holders[l] == None && OfLock(l) in st.semas && st.semas[OfLock(l)].value == 1)
    && (forall c :: c in st.conds ==> st.conds[c] == [])
  }

  lemma FreshIsBase(st: State)
    requires Fresh(st)
    ensures Base(st) && NoneLost(st.threads, st.semas) && Accounted(st.semas)
  {
  }

  lemma FreshIsFree(st: State)
    requires Fresh(st)
    ensures Locks(st) && Conds(st)
  {
    assert forall t: Tid :: PcOf(st.threads, t) == User;
    forall l | l in st.holders
      ensures OfLock(l) in st.semas && LockOk(st.threads, st.holders[l], st.semas[OfLock(l)].value, l) {
      assert forall t: Tid :: !Member(st.threads, st.holders[l], l, t);
    }
    forall c | c in st.conds ensures QueueOk(st.threads, st.semas, c, st.conds[c]) { }
  }

  lemma FreshIsInv(st: State)
    requires Fresh(st)
    ensures Inv(st)
  {
    hide Fresh, Base, NoneLost, Accounted, Locks, CondsOk;
    FreshIsBase(st);
    FreshIsFree(st);
  }

  // ----------------------------------------------------------------- accounts

  lemma PutKeepsAccounted(semas: map<SemaId, Sema>, s: SemaId, x: Sema)
    requires Accounted(semas) && x.value + x.downs == x.init + x.ups
    ensures Accounted(semas[s := x])
  {
  }

  lemma UpKeepsAccounted(st: State, s: SemaId)
    requires Sane(st) && Accounted(st.semas) && s in st.semas
    ensures Accounted(SemaUp(st, s).semas)
  {
    hide Accounted;
    AccountOf(st.semas, s);
    PutKeepsAccounted(st.semas, s, SemaUp(st, s).semas[s]);
  }

  lemma AccountOf(semas: map<SemaId, Sema>, s: SemaId)
    requires Accounted(semas) && s in semas
    ensures semas[s].value + semas[s].downs == semas[s].init + semas[s].ups
  {
  }

  lemma DownKeepsAccounted(st: State)
    requires Sane(st) && st.threads[st.current].pc.Down? && Accounted(st.semas)
    ensures Accounted(DownStep(st).semas)
  {
    hide Accounted;
    var s := st.threads[st.current].pc.s;
    AccountOf(st.semas, s);
    PutKeepsAccounted(st.semas, s, DownStep(st).semas[s]);
  }

  /** No step breaks the account of a semaphore. */
  lemma StepKeepsAccounted(st: State, e: Event)
    requires Sane(st) && Enabled(st, e) && Accounted(st.semas)
    ensures Accounted(Step(st, e).semas)
  {
    hide Accounted;
    match e
    case Continue =>
      match st.threads[st.current].pc {
        case Down(_, _, _) => DownKeepsAccounted(st);
        case UpWaiter(t) => UpKeepsAccounted(st, OfWaiter(t));
        case UpLock(l, _) => UpKeepsAccounted(st, OfLock(l));
        case _ =>
      }
    case CallUp(n) => UpKeepsAccounted(st, Plain(n));
    case CallTryDown(n) =>
      AccountOf(st.semas, Plain(n));
      if st.semas[Plain(n)].value > 0 { PutKeepsAccounted(st.semas, Plain(n), Step(st, e).semas[Plain(n)]); }
    case CallTryAcquire(l) =>
      AccountOf(st.semas, OfLock(l));
      if st.semas[OfLock(l)].value > 0 { PutKeepsAccounted(st.semas, OfLock(l), Step(st, e).semas[OfLock(l)]); }
    case CallWait(_, _) => PutKeepsAccounted(st.semas, OfWaiter(st.current), Sema(0, [], 0, 0, 0));
    case _ =>
  }

  // --------------------------------------------------------------------- runs

  lemma StepKeepsInv(st: State, e: Event)
    requires Inv(st) && Enabled(st, e)
    ensures Sane(st) && Inv(Step(st, e))
  {
    hide Base, NoneLost, Accounted, Locks, CondsOk, Step;
    if e.CallSignal? && st.conds[e.c] != [] { FrontHasSema(st, e.c); }
    StepKeepsBase(st, e);
    StepKeepsNoneLost(st, e);
    StepKeepsAccounted(st, e);
    StepKeepsLocks(st, e);
    StepKeepsConds(st, e);
  }

  /** A run: each event is enabled where it happens.  `Sane` is no restriction, as every reachable state is. */
  predicate Legal(st: State, es: seq<Event>)
    decreases |es|
  {
    es == [] || (Sane(st) && Enabled(st, es[0]) && Legal(Step(st, es[0]), es[1..]))
  }

  function Run(st: State, es: seq<Event>): (r: State)
    requires Legal(st, es)
    decreases |es|
  {
    if es == [] then st else Run(Step(st, es[0]), es[1..])
  }

  lemma {:induction false} RunKeepsInv(st: State, es: seq<Event>)
    requires Inv(st) && Legal(st, es)
    ensures Inv(Run(st, es)) && Sane(Run(st, es))
    decreases |es|
  {
    hide Inv, Step;
    if es == [] {
      InvIsSane(st);
    } else {
      StepKeepsInv(st, es[0]);
      RunKeepsInv(Step(st, es[0]), es[1..]);
    }
  }

  lemma InvIsSane(st: State)
    requires Inv(st)
    ensures Sane(st) && Base(st)
  {
    hide NoneLost, Accounted, Locks, CondsOk;
    BaseIsSane(st);
  }

  // --------------------------------------------------------------- guarantees

  /**
   In every run, while any thread sleeps on a semaphore the semaphore's value is at most the number of
   woken threads that have still to retry; and the value is the initial value plus ups minus downs.
   */
  lemma NoWakeupLost(st0: State, es: seq<Event>, s: SemaId, t: Tid)
    requires Fresh(st0) && Legal(st0, es) && s in Run(st0, es).semas
    ensures var st := Run(st0, es);
            && st.semas[s].value + st.semas[s].downs == st.semas[s].init + st.semas[s].ups
            && (t in st.threads && Asleep(st.threads[t], s) ==> st.semas[s].value <= |Woken(st.threads, s)|)
  {
    hide Locks, CondsOk, Pcs, Scheduled;
    FreshIsInv(st0);
    RunKeepsInv(st0, es);
    var st := Run(st0, es);
    IdleNotAsleep(st);
    assert t in st.threads && Asleep(st.threads[t], s) ==> t in st.semas[s].waiters;
  }

  lemma IdleNotAsleep(st: State)
    requires Base(st)
    ensures st.idle in st.threads && st.threads[st.idle].pc == User
  {
  }

  /**
   In every run, at most one thread is between completing `lock_acquire` and `lock_release`,
   and the lock's semaphore is available exactly when there is none.
   */
  lemma MutualExclusion(st0: State, es: seq<Event>, l: nat, t: Tid, u: Tid)
    requires Fresh(st0) && Legal(st0, es) && l in Run(st0, es).holders
    ensures var st := Run(st0, es);
            && (Member(st.threads, st.holders[l], l, t) && Member(st.threads, st.holders[l], l, u) ==> t == u)
            && OfLock(l) in st.semas && (st.semas[OfLock(l)].value == 0 || st.semas[OfLock(l)].value == 1)
            && (st.semas[OfLock(l)].value == 0 <==> exists v :: Member(st.threads, st.holders[l], l, v))
  {
    hide Base, CondsOk, NoneLost, Accounted, Fresh;
    FreshIsInv(st0);
    RunKeepsInv(st0, es);
  }

  /**
   In every run, one thread runs, the ready list holds each ready thread but the idle one once and no other,
   and each blocked thread but the idle one is on the queue of one semaphore, once.
   */
  lemma OneQueueEach(st0: State, es: seq<Event>, t: Tid)
    requires Fresh(st0) && Legal(st0, es) && t in Run(st0, es).threads
    ensures var st := Run(st0, es);
            && (st.threads[t].status == Running <==> t == st.current)
            && Distinct(st.ready) && (t in st.ready <==> t != st.idle && st.threads[t].status == Ready)
            && (forall s :: s in st.semas ==>
                   Distinct(st.semas[s].waiters)
                       && (t in st.semas[s].waiters <==> t != st.idle && Asleep(st.threads[t], s)))
            && (t != st.idle && st.threads[t].status == Blocked ==>
                   exists s :: s in st.semas && t in st.semas[s].waiters)
  {
    hide Pcs, CondsOk, NoneLost, Accounted, Locks, Fresh;
    FreshIsInv(st0);
    RunKeepsInv(st0, es);
    var st := Run(st0, es);
    forall s | s in st.semas
      ensures Distinct(st.semas[s].waiters) && (t in st.semas[s].waiters <==> t != st.idle && Asleep(st.threads[t], s))
    {
      assert WaitersOk(st.threads, st.idle, st.semas[s].waiters, s);
    }
  }

  // -------------------------------------------------------- first in, first out

  /** Whether the step calls `schedule`. */
  predicate Schedules(st: State, e: Event)
    requires Sane(st) && Enabled(st, e)
  {
    match e
    case Continue => st.threads[st.current].pc.Down? && st.semas[st.threads[st.current].pc.s].value == 0
    case Preempt => true
    case Exit => true
    case IdleBlock => true
    case _ => false
  }

  /** A `schedule` call takes the front of the ready list, and nothing else takes anything off it. */
  lemma StepReady(st: State, e: Event)
    requires Sane(st) && Enabled(st, e)
    ensures var st' := Step(st, e);
            if Schedules(st, e) then st.ready != [] ==> st'.current == st.ready[0] && st.ready[1..] <= st'.ready
            else st'.current == st.current && st.ready <= st'.ready
  {
  }

  /** How many `schedule` calls a run makes. */
  function Dispatches(st: State, es: seq<Event>): (n: nat)
    requires Legal(st, es)
    decreases |es|
  {
    if es == [] then 0 else Dispatches(Step(st, es[0]), es[1..]) + if Schedules(st, es[0]) then 1 else 0
  }

  /**
   The thread at position `k` of the ready list is still on it, `n` places further ahead, after
   `n <= k` calls of `schedule`, and it is the one dispatched by call `k + 1`.
   */
  lemma {:induction false} DispatchedInTurn(st: State, es: seq<Event>, k: nat, e: Event)
    requires Legal(st, es) && k < |st.ready|
    ensures var n := Dispatches(st, es);
            n <= k ==> k - n < |Run(st, es).ready| && Run(st, es).ready[k - n] == st.ready[k]
    ensures var r := Run(st, es);
            Dispatches(st, es) == k && Sane(r) && Enabled(r, e) && Schedules(r, e) ==> Step(r, e).current == st.ready[k]
    decreases |es|
  {
    hide Sane, Enabled, Step;
    if es == [] {
      if Sane(st) && Enabled(st, e) { StepReady(st, e); }
    } else {
      var st1 := Step(st, es[0]);
      StepReady(st, es[0]);
      if !Schedules(st, es[0]) {
        assert st1.ready[k] == st.ready[k];
        DispatchedInTurn(st1, es[1..], k, e);
      } else if k > 0 {
        assert st.ready[1..][k - 1] == st.ready[k] && st1.ready[k - 1] == st.ready[k];
        DispatchedInTurn(st1, es[1..], k - 1, e);
      }
    }
  }

  /** Whether the step takes a waiter off condition `c`. */
  predicate Signals(e: Event, c: nat) { e.CallSignal? && e.c == c }

  /** Only `cond_signal` takes waiters off a condition, from the front; newcomers join at the back. */
  lemma StepQueue(st: State, e: Event, c: nat)
    requires Sane(st) && Enabled(st, e) && c in st.conds
    ensures var st' := Step(st, e);
            c in st'.conds && if Signals(e, c) && st.conds[c] != [] then
              st'.conds[c] == st.conds[c][1..] && st.current in st'.threads
                  && st'.threads[st.current].pc == UpWaiter(st.conds[c][0])
            else st.conds[c] <= st'.conds[c]
  {
    hide Go, SemaUp, Leave, Yield, Sane;
    match e
    case Continue => GoKeepsQueues(st);
    case CallUp(n) => UpKeepsConds(st, Plain(n));
    case Preempt => LeaveKeepsConds(st, Ready);
    case Exit => LeaveKeepsConds(st, Dying);
    case IdleBlock => LeaveKeepsConds(st, Blocked);
    case Create =>
    case CallWait(_, _) =>
    case CallSignal(_, _) =>
    case _ =>
  }

  lemma UpKeepsConds(st: State, s: SemaId)
    requires Sane(st) && s in st.semas
    ensures SemaUp(st, s).conds == st.conds
  {
  }

  lemma LeaveKeepsConds(st: State, status: Status)
    requires Sane(st)
    ensures Leave(st, status).conds == st.conds && Yield(st).conds == st.conds
  {
  }

  lemma GoKeepsQueues(st: State)
    requires Sane(st)
    ensures Go(st).conds == st.conds
  {
    hide SemaUp;
    match st.threads[st.current].pc
    case UpWaiter(t) => UpKeepsConds(st, OfWaiter(t));
    case UpLock(l, _) => UpKeepsConds(st, OfLock(l));
    case _ =>
  }

  function SignalCount(es: seq<Event>, c: nat): (n: nat) {
    if es == [] then 0 else SignalCount(es[1..], c) + if Signals(es[0], c) then 1 else 0
  }

  /**
   The waiter at position `k` of a condition sleeps through the first `k` signals, moving up one place
   at each, and signal `k + 1` is for it, whether or not it has reached its `sema_down` by then.
   */
  lemma {:induction false} SignalledInTurn(st: State, es: seq<Event>, c: nat, k: nat, e: Event)
    requires Inv(st) && Legal(st, es) && c in st.conds && k < |st.conds[c]|
    ensures var r := Run(st, es); var n := SignalCount(es, c); var t := st.conds[c][k];
            n <= k ==> && c in r.conds && k - n < |r.conds[c]| && r.conds[c][k - n] == t
                       && Waits(r.threads, t) == Some(c) && Posts(r.semas, t) == 0
    ensures var r := Run(st, es);
            SignalCount(es, c) == k && Sane(r) && Enabled(r, e) && Signals(e, c) ==>
                    PcOf(Step(r, e).threads, r.current) == UpWaiter(st.conds[c][k])
    decreases |es|
  {
    hide Sane, Enabled, Step, Inv;
    if es == [] {
      QueuedWaits(st, c, k);
      if Sane(st) && Enabled(st, e) { StepQueue(st, e, c); }
    } else {
      var st1 := Step(st, es[0]);
      StepQueue(st, es[0], c);
      StepKeepsInv(st, es[0]);
      if !Signals(es[0], c) {
        assert st1.conds[c][k] == st.conds[c][k];
        SignalledInTurn(st1, es[1..], c, k, e);
      } else if k > 0 {
        assert st.conds[c][1..][k - 1] == st.conds[c][k];
        SignalledInTurn(st1, es[1..], c, k - 1, e);
      }
    }
  }

  lemma QueuedWaits(st: State, c: nat, k: nat)
    requires Inv(st) && c in st.conds && k < |st.conds[c]|
    ensures Waits(st.threads, st.conds[c][k]) == Some(c) && Posts(st.semas, st.conds[c][k]) == 0
  {
    assert QueueOk(st.threads, st.semas, c, st.conds[c]);
  }

  /**
   A thread in `cond_wait` gets past its semaphore exactly if it has been signalled: it is neither on
   the queue any more nor in the hands of a signaller.
   */
  lemma WaiterGoesOnIff(st: State)
    requires Inv(st) && st.current in st.threads && st.current != st.idle
    requires st.threads[st.current].pc.Down? && st.threads[st.current].pc.s.OfWaiter?
    ensures Sane(st) && var Down(s, slept, k) := st.threads[st.current].pc; var t := st.current;
            && k.Signalled? && k.c in st.conds
            && (PcOf(Go(st).threads, t) == Down(OfLock(k.l), false, Acquired(k.l)) <==>
                   t !in st.conds[k.c] && !IsPopped(st.threads, t))
            && (PcOf(Go(st).threads, t) == Down(s, true, k) <==> t in st.conds[k.c] || IsPopped(st.threads, t))
  {
    hide Scheduled, Queued, NoneLost, Accounted, Locks;
    BaseIsSane(st);
    CurrentPc(st);
    DownGoesTo(st);
    var t := st.current;
    assert Waits(st.threads, t).Some?;
    assert QueueOk(st.threads, st.semas, st.threads[t].pc.k.c, st.conds[st.threads[t].pc.k.c]);
  }

  /** On the way through `cond_wait` with lock `l`. */
  predicate InWait(pc: Pc, l: nat) {
    match pc
    case Release(_, m) => m == l
    case UpLock(m, k) => m == l && k.Sleep?
    case Down(s, _, k) => (k.Signalled? && k.l == l) || s == OfLock(l)
    case SetHolder(m) => m == l
    case _ => false
  }

  /** One step of any thread leaves a thread in its `cond_wait`, or has it return holding the lock. */
  lemma StepInWait(st: State, e: Event, t: Tid, l: nat)
    requires Inv(st) && Enabled(st, e) && InWait(PcOf(st.threads, t), l)
    ensures Sane(st)
    ensures var r := Step(st, e);
            InWait(PcOf(r.threads, t), l) || (PcOf(r.threads, t) == User && l in r.holders && r.holders[l] == Some(t))
  {
    hide Base, NoneLost, Accounted, Locks, CondsOk, OnlyCurrentMoves, Others;
    InvIsSane(st);
    if e.CallSignal? && st.conds[e.c] != [] { FrontHasSema(st, e.c); }
    StepMoves(st, e);
    MovesAreOthers(st, Step(st, e));
    if t == st.current {
      InWaitGoes(st, e, l);
    } else {
      OtherPc(st.threads, Step(st, e).threads, st.current, t);
    }
  }

  lemma OtherPc(threads: map<Tid, Thread>, threads': map<Tid, Thread>, current: Tid, t: Tid)
    requires Others(threads, threads', current) && t != current
    ensures PcOf(threads', t) == PcOf(threads, t)
  {
  }

  lemma InWaitGoes(st: State, e: Event, l: nat)
    requires Base(st) && Enabled(st, e) && st.current in st.threads && InWait(st.threads[st.current].pc, l)
    ensures Sane(st)
    ensures var r := Step(st, e); var t := st.current;
            InWait(PcOf(r.threads, t), l) || (PcOf(r.threads, t) == User && l in r.holders && r.holders[l] == Some(t))
  {
    hide Scheduled, Queued, Pcs;
    BaseIsSane(st);
    CurrentPc(st);
    IdleNotAsleep(st);
    match e
    case Continue => if st.threads[st.current].pc.Down? { DownGoesTo(st); }
    case Preempt => LeaveStays(st, Ready);
    case CallUp(n) => UpKeepsCurrent(st, Plain(n));
    case Create => FreshTid(st);
    case _ =>
  }

  /** Along the run the thread is in its `cond_wait`, up to the first state where it is not; there it holds the lock. */
  ghost predicate ReturnsHolding(st: State, es: seq<Event>, t: Tid, l: nat)
    requires Legal(st, es)
    decreases |es|
  {
    if InWait(PcOf(st.threads, t), l) then es == [] || ReturnsHolding(Step(st, es[0]), es[1..], t, l)
    else PcOf(st.threads, t) == User && l in st.holders && st.holders[l] == Some(t)
  }

  /** `cond_wait`, and likewise `lock_acquire`, returns only with the lock held. */
  lemma {:induction false} WaitReturnsHolding(st: State, es: seq<Event>, t: Tid, l: nat)
    requires Inv(st) && Legal(st, es) && InWait(PcOf(st.threads, t), l)
    ensures ReturnsHolding(st, es, t, l)
    decreases |es|
  {
    hide Inv, Sane, Enabled, Step, InWait;
    if es != [] {
      StepKeepsInv(st, es[0]);
      StepInWait(st, es[0], t, l);
      if InWait(PcOf(Step(st, es[0]).threads, t), l) { WaitReturnsHolding(Step(st, es[0]), es[1..], t, l); }
    }
  }
}
