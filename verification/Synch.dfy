/**
 The synchronisation guarantees of threads/synch.c over every run of the transition
 system of module Threads: no wake-up is lost, a lock has at most one thread between
 acquiring and releasing it, and a signal reaches the longest waiter.
 */
module Synch {
  import opened Common = Base
  import opened Threads

  // -------------------------------------------------- wake-ups, step by step

  lemma LeaveKeepsNoneLost(st: State, status: Status)
    requires Flow(st) && NoneLost(st.threads, st.semas) && status != Running
    requires (status == Blocked ==> st.current == st.idle)
    requires (status == Dying ==> st.current != st.idle && st.threads[st.current].pc == User)
    ensures var st0 := if status == Ready && st.current != st.idle then st.(ready := st.ready + [st.current]) else st;
            NextThread(st0) in st.threads && NoneLost(Leave(st0, status).threads, st.semas)
  {
    hide Queued, NoneLost, Handover;
    var th := st.threads[st.current].(status := status);
    CalmKeepsNoneLost(st.threads, st.semas, st.current, th);
    LeaveIsHandover(st.threads, st.ready, st.current, st.idle, status);
    var queue := if status == Ready && st.current != st.idle then st.ready + [st.current] else st.ready;
    var st1 := st.(threads := st.threads[st.current := th], ready := queue);
    ScheduleKeepsScheduled(st1);
    ScheduleKeepsNoneLost(st1, st.semas);
  }

  /** A running thread that is not retrying may go anywhere but into a retry. */
  lemma PcKeepsNoneLost(st: State, pc: Pc)
    requires NoneLost(st.threads, st.semas) && st.current in st.threads
    requires !st.threads[st.current].pc.Down? && !(pc.Down? && pc.slept)
    ensures NoneLost(WithPc(st, pc).threads, st.semas)
  {
    hide NoneLost;
    CalmKeepsNoneLost(st.threads, st.semas, st.current, st.threads[st.current].(pc := pc));
  }

  /** Lowering a value, or a fresh semaphore, loses no wake-up. */
  lemma PutKeepsNoneLost(threads: map<Tid, Thread>, semas: map<SemaId, Sema>, s: SemaId, x: Sema)
    requires NoneLost(threads, semas)
    requires x.waiters == [] || (s in semas && x.waiters == semas[s].waiters && x.value <= semas[s].value)
    ensures NoneLost(threads, semas[s := x])
  {
  }

  lemma UpThenPcKeepsNoneLost(st: State, s: SemaId, pc: Pc)
    requires Base(st) && NoneLost(st.threads, st.semas) && s in st.semas && st.current != st.idle
    requires st.current in st.threads && !st.threads[st.current].pc.Down? && !(pc.Down? && pc.slept)
    ensures Sane(st) && st.current in SemaUp(st, s).threads
    ensures var st' := WithPc(SemaUp(st, s), pc); NoneLost(st'.threads, st'.semas)
  {
    hide NoneLost, Base;
    UpKeepsNoneLost(st, s);
    PcKeepsNoneLost(SemaUp(st, s), pc);
  }

  lemma GoKeepsNoneLost(st: State)
    requires Base(st) && NoneLost(st.threads, st.semas) && st.current != st.idle
    ensures Sane(st) && NoneLost(Go(st).threads, Go(st).semas)
  {
    hide Base, NoneLost;
    BaseIsSane(st);
    match st.threads[st.current].pc
    case User =>
    case Down(_, _, _) => DownKeepsNoneLost(st);
    case SetHolder(l) => PcKeepsNoneLost(st.(holders := st.holders[l := Some(st.current)]), User);
    case Release(c, l) => PcKeepsNoneLost(st.(holders := st.holders[l := None]), UpLock(l, Sleep(c, l)));
    case UpWaiter(t) => UpThenPcKeepsNoneLost(st, OfWaiter(t), User);
    case UpLock(l, k) =>
      UpThenPcKeepsNoneLost(st, OfLock(l), if k.Sleep? then Down(OfWaiter(st.current), false, Signalled(k.c, k.l))
          else User);
  }

  lemma CreateKeepsNoneLost(st: State)
    requires NoneLost(st.threads, st.semas) && st.nextTid !in st.threads
    ensures NoneLost(st.threads[st.nextTid := Thread(Ready, User)], st.semas)
  {
    forall s | s in st.semas && st.semas[s].waiters != []
      ensures st.semas[s].value <= |Woken(st.threads[st.nextTid := Thread(Ready, User)], s)|
    {
      WokenSame(st.threads, st.threads[st.nextTid := Thread(Ready, User)], s);
    }
  }

  lemma FreshTid(st: State)
    requires Base(st)
    ensures st.nextTid !in st.threads && Flow(st)
  {
  }

  /** No step loses a wake-up. */
  lemma StepKeepsNoneLost(st: State, e: Event)
    requires Base(st) && Enabled(st, e) && NoneLost(st.threads, st.semas)
    ensures Sane(st) && NoneLost(Step(st, e).threads, Step(st, e).semas)
  {
    hide Base, NoneLost, Flow, Go, SemaUp;
    BaseIsSane(st);
    FreshTid(st);
    CurrentIn(st);
    match e
    case Continue => GoKeepsNoneLost(st);
    case CallDown(n) => PcKeepsNoneLost(st, Down(Plain(n), false, Return));
    case CallUp(n) => UpKeepsNoneLost(st, Plain(n));
    case CallTryDown(n) =>
      var x := st.semas[Plain(n)];
      if x.value > 0 { PutKeepsNoneLost(st.threads, st.semas, Plain(n), x.(value := x.value - 1, downs := x.downs + 1));
      }
    case CallAcquire(l) => PcKeepsNoneLost(st, Down(OfLock(l), false, Acquired(l)));
    case CallTryAcquire(l) =>
      var x := st.semas[OfLock(l)];
      if x.value > 0 {
        var x' := x.(value := x.value - 1, downs := x.downs + 1);
        PutKeepsNoneLost(st.threads, st.semas, OfLock(l), x');
        PcKeepsNoneLost(PutSema(st, OfLock(l), x'), SetHolder(l));
      }
    case CallRelease(l) => PcKeepsNoneLost(st.(holders := st.holders[l := None]), UpLock(l, Return));
    case CallWait(c, l) =>
      var x := Sema(0, [], 0, 0, 0);
      PutKeepsNoneLost(st.threads, st.semas, OfWaiter(st.current), x);
      PcKeepsNoneLost(PutSema(st, OfWaiter(st.current), x).(conds := st.conds[c := st.conds[c] + [st.current]]),
          Release(c, l));
    case CallSignal(c, _) =>
      var ws := st.conds[c];
      if ws != [] { PcKeepsNoneLost(st.(conds := st.conds[c := ws[1..]]), UpWaiter(ws[0])); }
    case Preempt => LeaveKeepsNoneLost(st, Ready);
    case Create =>
      CreateKeepsNoneLost(st);
      assert Step(st, e).threads == st.threads[st.nextTid := Thread(Ready, User)];
    case Exit => LeaveKeepsNoneLost(st, Dying);
    case IdleBlock => IdleIsUser(st); LeaveKeepsNoneLost(st, Blocked);
  }

  lemma IdleIsUser(st: State)
    requires Flow(st)
    ensures st.idle in st.threads && st.threads[st.idle].pc == User
  {
  }

  // ------------------------------------------------ where threads may stand

  lemma ScheduleMoves(st: State)
    requires Handover(st.threads, st.ready, st.current, st.idle) && NextThread(st) in st.threads
    ensures var r := Schedule(st);
            && (forall t :: t in r.threads ==> t in st.threads && r.threads[t].pc == st.threads[t].pc)
            && (forall t :: t in st.threads && t != st.current ==> t in r.threads)
  {
  }

  lemma LeaveMoves(st: State, status: Status)
    requires Base(st) && status != Running && (status == Dying ==> st.current != st.idle)
    ensures var st0 := if status == Ready && st.current != st.idle then st.(ready := st.ready + [st.current]) else st;
            st.current in st.threads && NextThread(st0) in st.threads && OnlyCurrentMoves(st, Leave(st0, status))
  {
    hide Scheduled, Queued, Handover;
    BaseIsSane(st);
    LeaveIsHandover(st.threads, st.ready, st.current, st.idle, status);
    var queue := if status == Ready && st.current != st.idle then st.ready + [st.current] else st.ready;
    var st1 := st.(threads := st.threads[st.current := st.threads[st.current].(status := status)], ready := queue);
    ScheduleKeepsScheduled(st1);
    ScheduleMoves(st1);
  }

  lemma UpMoves(st: State, s: SemaId, pc: Pc)
    requires Sane(st) && s in st.semas && PcOk(st.current, pc, st.semas, st.holders)
    ensures st.current in SemaUp(st, s).threads && OnlyCurrentMoves(st, WithPc(SemaUp(st, s), pc))
  {
    var st' := SemaUp(st, s);
    assert st'.semas.Keys == st.semas.Keys;
    PcsGrow(st.current, pc, st.semas, st'.semas, st.holders, st'.holders);
  }

  /** The running thread goes to `pc`, whatever becomes of semaphores, locks and conditions by the way. */
  lemma PcMoves(st: State, st1: State, pc: Pc)
    requires st.current in st.threads && st1.threads == st.threads && st1.current == st.current
    requires st1.nextTid == st.nextTid
    requires st.semas.Keys <= st1.semas.Keys && st.holders.Keys == st1.holders.Keys
    requires forall l :: l in st1.holders ==>
                 st1.holders[l] == st.holders[l] || st1.holders[l] == None || st1.holders[l] == Some(st.current)
    requires PcOk(st.current, pc, st1.semas, st1.holders)
    ensures OnlyCurrentMoves(st, WithPc(st1, pc))
  {
  }

  /** Going to sleep after all that changes no more. */
  lemma SleepMoves(st: State, st1: State)
    requires OnlyCurrentMoves(st, st1) && st1.current == st.current
    requires Scheduled(st1.threads, st1.ready, st1.current, st1.idle)
    ensures st1.current in st1.threads && NextThread(st1) in st1.threads && OnlyCurrentMoves(st, Leave(st1, Blocked))
  {
    hide Scheduled, Handover;
    SchedIn(st1.threads, st1.ready, st1.current, st1.idle);
    LeaveIsHandover(st1.threads, st1.ready, st1.current, st1.idle, Blocked);
    var st2 := st1.(threads := st1.threads[st1.current := st1.threads[st1.current].(status := Blocked)]);
    ScheduleKeepsScheduled(st2);
    ScheduleMoves(st2);
  }

  lemma SchedIn(threads: map<Tid, Thread>, ready: seq<Tid>, current: Tid, idle: Tid)
    requires Scheduled(threads, ready, current, idle)
    ensures current in threads && idle in threads
  {
  }

  lemma CurrentPc(st: State)
    requires Base(st)
    ensures st.current in st.threads && PcOk(st.current, st.threads[st.current].pc, st.semas, st.holders)
  {
  }

  lemma DownMoves(st: State)
    requires Base(st) && st.current != st.idle && st.current in st.threads && st.threads[st.current].pc.Down?
    ensures Sane(st) && OnlyCurrentMoves(st, DownStep(st))
  {
    hide Scheduled, Queued, Pcs, OnlyCurrentMoves;
    BaseIsSane(st);
    CurrentPc(st);
    var Down(s, slept, k) := st.threads[st.current].pc;
    var x := st.semas[s];
    if x.value == 0 {
      var x' := x.(waiters := x.waiters + [st.current]);
      assert PutSema(st, s, x').semas.Keys == st.semas.Keys;
      PcMoves(st, PutSema(st, s, x'), Down(s, true, k));
      PcKeepsScheduled(st, Down(s, true, k));
      SleepMoves(st, PutSema(WithPc(st, Down(s, true, k)), s, x'));
    } else {
      var x' := x.(value := x.value - 1, downs := x.downs + 1);
      assert PutSema(st, s, x').semas.Keys == st.semas.Keys;
      PcMoves(st, PutSema(st, s, x'), AfterDown(k));
    }
  }

  lemma GoMoves(st: State)
    requires Base(st) && st.current != st.idle
    ensures Sane(st) && OnlyCurrentMoves(st, Go(st))
  {
    hide Scheduled, Queued;
    BaseIsSane(st);
    assert PcOk(st.current, st.threads[st.current].pc, st.semas, st.holders);
    match st.threads[st.current].pc
    case User =>
    case Down(_, _, _) => DownMoves(st);
    case SetHolder(l) => assert Go(st).holders.Keys == st.holders.Keys;
    case Release(c, l) => assert Go(st).holders.Keys == st.holders.Keys;
    case UpWaiter(t) => UpMoves(st, OfWaiter(t), User);
    case UpLock(l, k) =>
      UpMoves(st, OfLock(l), if k.Sleep? then Down(OfWaiter(st.current), false, Signalled(k.c, k.l)) else User);
  }

  lemma StayMoves(st: State, st': State)
    requires Base(st) && st'.threads == st.threads && st'.current == st.current && st'.nextTid == st.nextTid
    requires st.semas.Keys == st'.semas.Keys && st.holders == st'.holders
    ensures OnlyCurrentMoves(st, st')
  {
    CurrentPc(st);
    PcsGrow(st.current, st.threads[st.current].pc, st.semas, st'.semas, st.holders, st'.holders);
  }

  lemma CreateMoves(st: State)
    requires Base(st)
    ensures OnlyCurrentMoves(st,
            Unblock(st.(threads := st.threads[st.nextTid := Thread(Blocked, User)], nextTid := st.nextTid + 1),
                st.nextTid))
  {
    FreshTid(st);
    CurrentPc(st);
  }

  /** A step moves only the running thread, and to a place where its continuation makes sense. */
  lemma StepMoves(st: State, e: Event)
    requires Base(st) && Enabled(st, e)
    requires e.CallSignal? && st.conds[e.c] != [] ==> OfWaiter(st.conds[e.c][0]) in st.semas
    ensures Sane(st) && OnlyCurrentMoves(st, Step(st, e))
  {
    hide Scheduled, Queued, Base, OnlyCurrentMoves, Go, SemaUp, Leave;
    BaseIsSane(st);
    CurrentPc(st);
    match e
    case Continue => GoMoves(st);
    case CallUp(n) =>
      UpMoves(st, Plain(n), st.threads[st.current].pc);
      UpKeepsCurrent(st, Plain(n));
    case Preempt => LeaveMoves(st, Ready);
    case Exit => LeaveMoves(st, Dying);
    case IdleBlock => LeaveMoves(st, Blocked);
    case Create => CreateMoves(st);
    case _ => CallMoves(st, e);
  }

  lemma CallMoves(st: State, e: Event)
    requires Base(st) && Enabled(st, e)
    requires !e.Continue? && !e.CallUp? && !e.Preempt? && !e.Exit? && !e.IdleBlock? && !e.Create?
    requires e.CallSignal? && st.conds[e.c] != [] ==> OfWaiter(st.conds[e.c][0]) in st.semas
    ensures Sane(st) && OnlyCurrentMoves(st, Step(st, e))
  {
    hide Scheduled, Queued, Base, OnlyCurrentMoves, Go, SemaUp, Leave;
    BaseIsSane(st);
    CurrentPc(st);
    match e
    case CallDown(n) => PcMoves(st, st, Down(Plain(n), false, Return));
    case CallTryDown(n) =>
      assert Step(st, e).semas.Keys == st.semas.Keys;
      StayMoves(st, Step(st, e));
    case CallAcquire(l) => PcMoves(st, st, Down(OfLock(l), false, Acquired(l)));
    case CallTryAcquire(l) =>
      var x := st.semas[OfLock(l)];
      if x.value > 0 {
        var st1 := PutSema(st, OfLock(l), x.(value := x.value - 1, downs := x.downs + 1));
        assert st1.semas.Keys == st.semas.Keys;
        PcMoves(st, st1, SetHolder(l));
      } else { StayMoves(st, st); }
    case CallRelease(l) =>
      var st1 := st.(holders := st.holders[l := None]);
      assert st1.holders.Keys == st.holders.Keys;
      PcMoves(st, st1, UpLock(l, Return));
    case CallWait(c, l) =>
      PcMoves(st, PutSema(st, OfWaiter(st.current),
          Sema(0, [], 0, 0, 0)).(conds := st.conds[c := st.conds[c] + [st.current]]), Release(c, l));
    case CallSignal(c, _) =>
      var ws := st.conds[c];
      if ws != [] { PcMoves(st, st.(conds := st.conds[c := ws[1..]]), UpWaiter(ws[0])); } else { StayMoves(st, st); }
  }

  lemma UpKeepsCurrent(st: State, s: SemaId)
    requires Base(st) && s in st.semas
    ensures Sane(st)
    ensures var st' := SemaUp(st, s);
            st'.current == st.current && st.current in st'.threads && WithPc(st', st.threads[st.current].pc) == st'
  {
    BaseIsSane(st);
    var st' := SemaUp(st, s);
    assert st'.threads[st.current].pc == st.threads[st.current].pc;
    assert st'.threads[st.current := st'.threads[st.current]] == st'.threads;
  }

  /** The running thread is on no queue, so the semaphore it waits on next has none. */
  lemma OwnWaiterQueueEmpty(st: State)
    requires Base(st) && OfWaiter(st.current) in st.semas
    ensures st.semas[OfWaiter(st.current)].waiters == []
  {
    var s := OfWaiter(st.current);
    var ws := st.semas[s].waiters;
    assert WaitersOk(st.threads, st.idle, ws, s);
    assert ws != [] ==> Asleep(st.threads[ws[0]], s) && PcOk(ws[0], st.threads[ws[0]].pc, st.semas, st.holders);
  }

  /** Every step keeps the scheduler's queues, the semaphores' queues and the threads' places. */
  lemma StepKeepsBase(st: State, e: Event)
    requires Base(st) && Enabled(st, e)
    requires e.CallSignal? && st.conds[e.c] != [] ==> OfWaiter(st.conds[e.c][0]) in st.semas
    ensures Sane(st) && Base(Step(st, e))
  {
    hide Scheduled, Queued, Pcs, OnlyCurrentMoves, Step;
    FreshTid(st);
    if OfWaiter(st.current) in st.semas { OwnWaiterQueueEmpty(st); }
    StepKeepsFlow(st, e);
    StepMoves(st, e);
    CurrentPc(st);
    MovesKeepPcs(st, Step(st, e));
  }

  // ------------------------------------------------------- mutual exclusion

  /** Where a thread stands; one that is not there yet, or not any more, is outside the primitives. */
  ghost function PcOf(threads: map<Tid, Thread>, t: Tid): Pc {
    if t in threads then threads[t].pc else User
  }

  /** Between the semaphore of the lock and its holder field, on the way in or out. */
  predicate InRegion(pc: Pc, l: nat) {
    pc == SetHolder(l) || (pc.UpLock? && pc.l == l)
  }

  /** The thread has completed the `sema_down` of the lock and not yet begun its `sema_up`. */
  ghost predicate Member(threads: map<Tid, Thread>, holder: Option<Tid>, l: nat, t: Tid) {
    holder == Some(t) || InRegion(PcOf(threads, t), l)
  }

  /** The semaphore of the lock is zero exactly while one thread, and one only, is inside. */
  ghost predicate LockOk(threads: map<Tid, Thread>, holder: Option<Tid>, value: nat, l: nat) {
    && value <= 1
    && (value == 0 <==> exists t :: Member(threads, holder, l, t))
    && (forall t, u :: Member(threads, holder, l, t) && Member(threads, holder, l, u) ==> t == u)
    && (forall t: Tid :: InRegion(PcOf(threads, t), l) ==> holder == None)
    && (forall t: Tid :: PcOf(threads, t).Release? && PcOf(threads, t).l == l ==> holder == Some(t))
  }

  ghost predicate Locks(st: State) {
    forall l :: l in st.holders ==>
      OfLock(l) in st.semas && LockOk(st.threads, st.holders[l], st.semas[OfLock(l)].value, l)
  }

  function Bit(b: bool): nat { if b then 1 else 0 }

  /**
   What one step of thread `t` may do to lock `l`: the thread enters or leaves, and the semaphore's
   value moves the other way; the holder field names another thread only if it did before.
   */
  ghost predicate Turn(t: Tid, l: nat, pc: Pc, pc': Pc, holder: Option<Tid>, holder': Option<Tid>, value: nat,
      value': nat) {
    && (forall u :: u != t ==> (holder' == Some(u) <==> holder == Some(u)))
    && value' + Bit(holder' == Some(t) || InRegion(pc', l)) == value + Bit(holder == Some(t) || InRegion(pc, l))
    && (InRegion(pc', l) ==> holder' == None)
    && (pc'.Release? && pc'.l == l ==> holder' == Some(t))
  }

  ghost predicate Others(threads: map<Tid, Thread>, threads': map<Tid, Thread>, current: Tid) {
    forall t :: t != current ==> PcOf(threads', t) == PcOf(threads, t)
  }

  lemma TurnKeepsLock(threads: map<Tid, Thread>, threads': map<Tid, Thread>, holder: Option<Tid>, holder': Option<Tid>,
                      value: nat, value': nat, l: nat, current: Tid)
    requires LockOk(threads, holder, value, l) && Others(threads, threads', current)
    requires Turn(current, l, PcOf(threads, current), PcOf(threads', current), holder, holder', value, value')
    ensures LockOk(threads', holder', value', l)
  {
    assert forall t :: t != current ==> (Member(threads', holder', l, t) <==> Member(threads, holder, l, t));
    assert Member(threads, holder, l, current) ==> value == 0;
    assert Member(threads', holder', l, current) ==> value' == 0 && (Member(threads, holder, l, current) || value == 1);
    if value == 0 {
      var o :| Member(threads, holder, l, o);
      assert o != current ==> Member(threads', holder', l, o);
    }
    assert forall t :: Member(threads', holder', l, t) && Member(threads', holder', l, current) ==> t == current;
    forall t | InRegion(PcOf(threads', t), l) ensures holder' == None {
      assert Member(threads', holder', l, t);
      assert holder' == Some(current) ==> Member(threads', holder', l, current);
    }
  }

  lemma MovesAreOthers(st: State, st': State)
    requires OnlyCurrentMoves(st, st') && st.current in st.threads
    ensures Others(st.threads, st'.threads, st.current)
  {
  }

  /** Giving up the CPU changes nothing but statuses and the ready list; a dying thread was outside the primitives. */
  lemma LeaveStays(st: State, status: Status)
    requires Base(st) && status != Running
    requires (status == Dying ==> st.current != st.idle && PcOf(st.threads, st.current) == User)
    ensures var st0 := if status == Ready && st.current != st.idle then st.(ready := st.ready + [st.current]) else st;
            && st.current in st.threads && NextThread(st0) in st.threads
            && PcOf(Leave(st0, status).threads, st.current) == st.threads[st.current].pc
  {
    hide Queued, Pcs, Handover;
    LeaveIsHandover(st.threads, st.ready, st.current, st.idle, status);
    var queue := if status == Ready && st.current != st.idle then st.ready + [st.current] else st.ready;
    ScheduleKeepsScheduled(st.(threads := st.threads[st.current := st.threads[st.current].(status := status)],
        ready := queue));
  }

  /** `LockOk` of a semaphore that has just been found positive: nobody is inside. */
  lemma FreeLock(threads: map<Tid, Thread>, holder: Option<Tid>, value: nat, l: nat, t: Tid)
    requires LockOk(threads, holder, value, l) && value > 0
    ensures value == 1 && holder == None && !InRegion(PcOf(threads, t), l)
  {
    assert !Member(threads, holder, l, t);
    assert holder.Some? ==> Member(threads, holder, l, holder.value);
  }

  lemma DownTurn(st: State, l: nat)
    requires Base(st) && Locks(st) && st.current != st.idle && st.current in st.threads
    requires st.threads[st.current].pc.Down? && l in st.holders
    ensures Sane(st) && OfLock(l) in st.semas
    ensures var st' := DownStep(st);
            && l in st'.holders && OfLock(l) in st'.semas
            && Turn(st.current, l, st.threads[st.current].pc, PcOf(st'.threads, st.current), st.holders[l],
               st'.holders[l],
                    st.semas[OfLock(l)].value, st'.semas[OfLock(l)].value)
  {
    hide Scheduled, Queued, Handover, LockOk;
    BaseIsSane(st);
    CurrentPc(st);
    var Down(s, slept, k) := st.threads[st.current].pc;
    var x := st.semas[s];
    if x.value == 0 {
      var st1 := PutSema(WithPc(st, Down(s, true, k)), s, x.(waiters := x.waiters + [st.current]));
      PcKeepsScheduled(st, Down(s, true, k));
      LeaveIsHandover(st1.threads, st1.ready, st1.current, st1.idle, Blocked);
      var st2 := st1.(threads := st1.threads[st1.current := st1.threads[st1.current].(status := Blocked)]);
      ScheduleKeepsPcs(st2);
    } else if s == OfLock(l) {
      FreeLock(st.threads, st.holders[l], x.value, l, st.current);
    }
  }

  lemma ScheduleKeepsPcs(st: State)
    requires Handover(st.threads, st.ready, st.current, st.idle) && st.threads[st.current].status != Dying
    ensures NextThread(st) in st.threads && PcOf(Schedule(st).threads, st.current) == st.threads[st.current].pc
  {
  }

  ghost predicate LockTurn(st: State, st': State, l: nat) {
    && l in st.holders && OfLock(l) in st.semas && l in st'.holders && OfLock(l) in st'.semas
    && Turn(st.current, l, PcOf(st.threads, st.current), PcOf(st'.threads, st.current), st.holders[l], st'.holders[l],
            st.semas[OfLock(l)].value, st'.semas[OfLock(l)].value)
  }

  lemma UpTurn(st: State, s: SemaId, pc: Pc, l: nat)
    requires Sane(st) && Locks(st) && l in st.holders && s in st.semas
    requires !InRegion(pc, l) && !pc.Release?
    requires if s == OfLock(l) then InRegion(st.threads[st.current].pc, l) else !InRegion(st.threads[st.current].pc, l)
    ensures st.current in SemaUp(st, s).threads && LockTurn(st, WithPc(SemaUp(st, s), pc), l)
  {
  }

  lemma GoTurn(st: State, l: nat)
    requires Base(st) && Locks(st) && st.current != st.idle && l in st.holders
    ensures Sane(st) && LockTurn(st, Go(st), l)
  {
    hide Scheduled, Queued, Pcs, LockOk;
    BaseIsSane(st);
    CurrentPc(st);
    LockFacts(st, l);
    match st.threads[st.current].pc
    case User =>
    case Down(_, _, _) => DownTurn(st, l);
    case SetHolder(_) =>
    case Release(_, _) =>
    case UpWaiter(t) => UpTurn(st, OfWaiter(t), User, l);
    case UpLock(m, k) =>
      UpTurn(st, OfLock(m), if k.Sleep? then Down(OfWaiter(st.current), false, Signalled(k.c, k.l)) else User, l);
  }

  /** What the invariant of a lock says about the running thread. */
  lemma LockFacts(st: State, l: nat)
    requires Locks(st) && l in st.holders && st.current in st.threads
    ensures OfLock(l) in st.semas
    ensures InRegion(st.threads[st.current].pc, l) ==> st.holders[l] == None
    ensures st.threads[st.current].pc.Release? && st.threads[st.current].pc.l == l ==> st.holders[l] == Some(st.current)
    ensures st.semas[OfLock(l)].value > 0 ==>
                st.semas[OfLock(l)].value == 1 && st.holders[l] == None && !InRegion(st.threads[st.current].pc, l)
  {
    assert PcOf(st.threads, st.current) == st.threads[st.current].pc;
    if st.semas[OfLock(l)].value > 0 { FreeLock(st.threads, st.holders[l], st.semas[OfLock(l)].value, l, st.current); }
  }

  lemma LeaveTurn(st: State, status: Status, l: nat)
    requires Base(st) && Locks(st) && l in st.holders
    requires status != Running && (status == Dying ==> st.current != st.idle && PcOf(st.threads, st.current) == User)
    ensures var st0 := if status == Ready && st.current != st.idle then st.(ready := st.ready + [st.current]) else st;
            st.current in st.threads && NextThread(st0) in st.threads && LockTurn(st, Leave(st0, status), l)
  {
    hide Scheduled, Queued, Pcs, LockOk;
    LeaveStays(st, status);
    LockFacts(st, l);
  }

  /** Every step is a fair turn with respect to every lock. */
  lemma StepTurn(st: State, e: Event, l: nat)
    requires Base(st) && Locks(st) && Enabled(st, e) && l in st.holders
    ensures Sane(st) && LockTurn(st, Step(st, e), l)
  {
    hide Scheduled, Queued, Pcs, LockOk, Locks, LockTurn, Go, SemaUp, Leave, Base;
    BaseIsSane(st);
    match e
    case Continue => GoTurn(st, l);
    case Preempt => LeaveTurn(st, Ready, l);
    case Exit => LeaveTurn(st, Dying, l);
    case IdleBlock => LeaveTurn(st, Blocked, l);
    case CallUp(n) => CallUpTurn(st, n, l);
    case _ => CallTurn(st, e, l);
  }

  lemma CallUpTurn(st: State, n: nat, l: nat)
    requires Base(st) && Locks(st) && Enabled(st, CallUp(n)) && l in st.holders
    ensures Sane(st) && LockTurn(st, Step(st, CallUp(n)), l)
  {
    hide Scheduled, Queued, Pcs, LockOk, Locks, Go, Leave;
    BaseIsSane(st);
    LockFacts(st, l);
    UpKeepsCurrent(st, Plain(n));
  }

  /** A thread that calls a synchronization function or creates a thread stays a fair user of the lock. */
  lemma CallTurn(st: State, e: Event, l: nat)
    requires Base(st) && Locks(st) && Enabled(st, e) && l in st.holders
    requires !e.Continue? && !e.Preempt? && !e.Exit? && !e.IdleBlock? && !e.CallUp?
    ensures Sane(st) && LockTurn(st, Step(st, e), l)
  {
    hide Scheduled, Queued, Pcs, LockOk, Locks, Go, Leave, SemaUp;
    BaseIsSane(st);
    LockFacts(st, l);
    match e
    case CallTryAcquire(m) => LockFacts(st, m);
    case Create => FreshTid(st);
    case _ =>
  }

  /** Every step keeps the locks. */
  lemma StepKeepsLocks(st: State, e: Event)
    requires Base(st) && Locks(st) && Enabled(st, e)
    requires e.CallSignal? && st.conds[e.c] != [] ==> OfWaiter(st.conds[e.c][0]) in st.semas
    ensures Sane(st) && Locks(Step(st, e))
  {
    hide Base, LockOk, OnlyCurrentMoves, Step, Turn;
    StepMoves(st, e);
    var st' := Step(st, e);
    MovesAreOthers(st, st');
    MovesKeepHolders(st, st');
    forall l | l in st'.holders
      ensures OfLock(l) in st'.semas && LockOk(st'.threads, st'.holders[l], st'.semas[OfLock(l)].value, l)
    {
      StepTurn(st, e, l);
      TurnKeepsLock(st.threads, st'.threads, st.holders[l], st'.holders[l], st.semas[OfLock(l)].value,
          st'.semas[OfLock(l)].value, l, st.current);
    }
  }

  lemma MovesKeepHolders(st: State, st': State)
    requires OnlyCurrentMoves(st, st')
    ensures forall l :: l in st'.holders <==> l in st.holders
  {
    assert forall l :: l in st'.holders.Keys <==> l in st.holders.Keys;
  }
}
