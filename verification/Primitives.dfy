/**
 What the caller of each primitive of threads/synch.c and threads/thread.c gets, from the call to its return: what the
 call does to semaphores, locks, conditions and the ready list, when it goes on and when it sleeps, and with what it
 returns over every run of the other threads.
 */
module Primitives {
  import opened Common = Base
  import opened Threads
  import opened Synch
  import opened Conditions
  import opened Concurrency

  /** Nothing but the places of threads and the given semaphore has changed. */
  ghost predicate SameBut(st: State, r: State, s: SemaId) {
    && r.semas.Keys == st.semas.Keys && (forall u :: u in st.semas && u != s ==> r.semas[u] == st.semas[u])
    && r.holders == st.holders && r.conds == st.conds && r.idle == st.idle && r.nextTid == st.nextTid
  }

  /** All threads but `t` are as they were. */
  ghost predicate OthersSame(st: State, r: State, t: Tid) {
    r.threads.Keys == st.threads.Keys && forall u :: u in st.threads && u != t ==> r.threads[u] == st.threads[u]
  }

  // ------------------------------------------------------------------ sema_up

  /** One more in value, and the first waiter, if any, is ready, last on the list; nobody else is touched. */
  ghost predicate WakesFirst(st: State, r: State, s: SemaId)
    requires s in st.semas
  {
    var x := st.semas[s];
    && SameBut(st, r, s) && r.current == st.current && s in r.semas
    && r.semas[s].value == x.value + 1 && r.semas[s].ups == x.ups + 1
    && r.semas[s].downs == x.downs && r.semas[s].init == x.init
    && (x.waiters == [] ==> r.semas[s].waiters == [] && r.ready == st.ready && r.threads == st.threads)
    && (x.waiters != [] ==>
          var w := x.waiters[0];
          && r.semas[s].waiters == x.waiters[1..] && r.ready == st.ready + [w] && OthersSame(st, r, w)
          && w in st.threads && w in r.threads && r.threads[w].status == Ready && r.threads[w].pc == st.threads[w].pc)
  }

  /** `sema_up` does that. */
  lemma UpWakesFirst(st: State, s: SemaId)
    requires Inv(st) && s in st.semas
    ensures Sane(st) && WakesFirst(st, SemaUp(st, s), s)
  {
    hide Base, NoneLost, Accounted, Locks, CondsOk;
    InvIsSane(st);
  }

  /** So does a client's call of it. */
  lemma UpCall(st: State, n: nat)
    requires Inv(st) && Enabled(st, CallUp(n))
    ensures Sane(st) && WakesFirst(st, Step(st, CallUp(n)), Plain(n))
  {
    hide Base, NoneLost, Accounted, Locks, CondsOk, WakesFirst;
    InvIsSane(st);
    UpWakesFirst(st, Plain(n));
  }

  // ---------------------------------------------------------------- sema_down

  /** The running thread's turn in `sema_down` with a positive value: it takes one and goes on. */
  lemma DownTakes(st: State)
    requires Inv(st) && st.current in st.threads && st.current != st.idle && st.threads[st.current].pc.Down?
    requires st.threads[st.current].pc.s in st.semas ==> st.semas[st.threads[st.current].pc.s].value > 0
    ensures Sane(st) && Enabled(st, Continue)
    ensures var t, r := st.current, Step(st, Continue); var Down(s, slept, k) := st.threads[t].pc; var x := st.semas[s];
            && SameBut(st, r, s) && r.ready == st.ready && r.current == t && OthersSame(st, r, t)
            && r.semas[s] == x.(value := x.value - 1, downs := x.downs + 1)
            && t in r.threads && r.threads[t].status == Running
            && r.threads[t].pc == match k
                 case Return => User
                 case Acquired(l) => SetHolder(l)
                 case Signalled(_, l) => Down(OfLock(l), false, Acquired(l))
                 case Sleep(_, _) => User
  {
    hide NoneLost, Accounted, Locks, CondsOk, Queued, Pcs, Handover;
    InvIsSane(st);
    RunnerRuns(st);
    hide Scheduled, Base;
  }

  lemma RunnerRuns(st: State)
    requires Base(st)
    ensures st.current in st.threads && st.threads[st.current].status == Running
    ensures NextThread(st) in st.threads && (st.current != st.idle ==> NextThread(st) != st.current)
  {
  }

  /** With value 0 it sleeps, last among the waiters, and the next thread runs. */
  lemma DownSleeps(st: State)
    requires Inv(st) && st.current in st.threads && st.current != st.idle && st.threads[st.current].pc.Down?
    requires st.threads[st.current].pc.s in st.semas ==> st.semas[st.threads[st.current].pc.s].value == 0
    ensures Sane(st) && Enabled(st, Continue)
    ensures var t, r := st.current, Step(st, Continue); var Down(s, slept, k) := st.threads[t].pc; var x := st.semas[s];
            && SameBut(st, r, s) && t in r.threads && RunsNext(st, r)
            && r.semas[s] == x.(waiters := x.waiters + [t]) && r.threads[t] == Thread(Blocked, Down(s, true, k))
  {
    hide NoneLost, Accounted, Locks, CondsOk, Queued, Pcs, Handover, Scheduled;
    InvIsSane(st);
    RunnerRuns(st);
    hide Base;
  }

  /** The front of the ready list runs, or the idle thread if it is empty. */
  ghost predicate RunsNext(st: State, r: State) {
    && r.current == (if st.ready == [] then st.idle else st.ready[0])
    && r.ready == (if st.ready == [] then [] else st.ready[1..])
    && r.current in r.threads && r.threads[r.current].status == Running
    && (forall u :: u in st.threads && u != st.current && u != r.current ==>
           u in r.threads && r.threads[u] == st.threads[u])
    && (forall u :: u in r.threads ==> u in st.threads)
  }

  /** In `sema_down` of a client's semaphore. */
  predicate InDown(pc: Pc, n: nat) { pc.Down? && pc.s == Plain(n) && pc.k == Return }

  /** The call of `sema_down` only enters it. */
  lemma DownCall(st: State, n: nat)
    requires Inv(st) && Enabled(st, CallDown(n))
    ensures Sane(st)
    ensures var t, r := st.current, Step(st, CallDown(n));
            && InDown(PcOf(r.threads, t), n) && OthersSame(st, r, t) && r.threads[t].status == st.threads[t].status
            && r == st.(threads := r.threads)
  {
    hide Base, NoneLost, Accounted, Locks, CondsOk;
    InvIsSane(st);
  }

  /** The thread takes one off the semaphore and is back at its caller. */
  ghost predicate Takes(st: State, r: State, t: Tid, n: nat) {
    && st.current == t && PcOf(r.threads, t) == User && Plain(n) in st.semas && Plain(n) in r.semas
    && st.semas[Plain(n)].value == r.semas[Plain(n)].value + 1
    && r.semas[Plain(n)].downs == st.semas[Plain(n)].downs + 1
  }

  /** A step of any thread leaves a thread in its `sema_down`, or is the one with which it takes one. */
  lemma StepInDown(st: State, e: Event, t: Tid, n: nat)
    requires Inv(st) && Enabled(st, e) && InDown(PcOf(st.threads, t), n)
    ensures Sane(st) && (InDown(PcOf(Step(st, e).threads, t), n) || Takes(st, Step(st, e), t, n))
  {
    hide Base, NoneLost, Accounted, Locks, CondsOk, OnlyCurrentMoves, Others;
    InvIsSane(st);
    if e.CallSignal? && st.conds[e.c] != [] { FrontHasSema(st, e.c); }
    StepMoves(st, e);
    MovesAreOthers(st, Step(st, e));
    if t == st.current {
      InDownGoes(st, e, n);
    } else {
      OtherPc(st.threads, Step(st, e).threads, st.current, t);
    }
  }

  lemma InDownGoes(st: State, e: Event, n: nat)
    requires Inv(st) && Enabled(st, e) && st.current in st.threads && InDown(st.threads[st.current].pc, n)
    ensures Sane(st)
    ensures InDown(PcOf(Step(st, e).threads, st.current), n) || Takes(st, Step(st, e), st.current, n)
  {
    hide Base, NoneLost, Accounted, Locks, CondsOk;
    InvIsSane(st);
    IdleIsUser(st);
    match e
    case Continue => if st.semas[Plain(n)].value > 0 { DownTakes(st); } else { DownSleeps(st); }
    case Preempt => LeaveStays(st, Ready);
    case CallUp(m) => UpKeepsCurrent(st, Plain(m));
    case Create => FreshTid(st);
    case _ =>
  }

  lemma IdleIsUser(st: State)
    requires Base(st)
    ensures st.idle in st.threads && st.threads[st.idle].pc == User
  {
  }

  /** Along the run the thread is in its `sema_down`, up to the step with which it takes one and returns. */
  ghost predicate ReturnsTaking(st: State, es: seq<Event>, t: Tid, n: nat)
    requires Legal(st, es)
    decreases |es|
  {
    && InDown(PcOf(st.threads, t), n)
    && (es == [] || Takes(st, Step(st, es[0]), t, n) || ReturnsTaking(Step(st, es[0]), es[1..], t, n))
  }

  lemma {:induction false} StaysTillTaken(st: State, es: seq<Event>, t: Tid, n: nat)
    requires Inv(st) && Legal(st, es) && InDown(PcOf(st.threads, t), n)
    ensures ReturnsTaking(st, es, t, n)
    decreases |es|
  {
    hide Inv, Sane, Enabled, Step, InDown, Takes;
    if es != [] {
      StepKeepsInv(st, es[0]);
      StepInDown(st, es[0], t, n);
      if !Takes(st, Step(st, es[0]), t, n) { StaysTillTaken(Step(st, es[0]), es[1..], t, n); }
    }
  }

  /** Over every run, a call of `sema_down` returns only by taking one off the value. */
  lemma DownReturnsTaking(st: State, es: seq<Event>, n: nat)
    requires Inv(st) && Enabled(st, CallDown(n)) && Sane(st) && Legal(Step(st, CallDown(n)), es)
    ensures ReturnsTaking(Step(st, CallDown(n)), es, st.current, n)
  {
    hide Inv, Sane, Enabled, Step;
    StepKeepsInv(st, CallDown(n));
    DownCall(st, n);
    StaysTillTaken(Step(st, CallDown(n)), es, st.current, n);
  }

  /** `sema_try_down` takes one exactly if the value is positive, and changes nothing else. */
  lemma TryDownCall(st: State, n: nat)
    requires Inv(st) && Enabled(st, CallTryDown(n))
    ensures Sane(st)
    ensures var x, r := st.semas[Plain(n)], Step(st, CallTryDown(n));
            && (x.value == 0 ==> r == st)
            && (x.value > 0 ==> r == st.(semas := r.semas) && SameBut(st, r, Plain(n))
                                && r.semas[Plain(n)] == x.(value := x.value - 1, downs := x.downs + 1))
  {
    hide Base, NoneLost, Accounted, Locks, CondsOk;
    InvIsSane(st);
  }

  // --------------------------------------------------------------------- locks

  /** A thread is inside the lock: past the semaphore on the way in, not yet past it on the way out. */
  ghost predicate Inside(st: State, l: nat, t: Tid)
    requires l in st.holders
  {
    Member(st.threads, st.holders[l], l, t)
  }

  lemma FreeIff(st: State, l: nat)
    requires Inv(st) && l in st.holders
    ensures OfLock(l) in st.semas && st.semas[OfLock(l)].value <= 1
    ensures st.semas[OfLock(l)].value == 1 <==> forall t :: !Inside(st, l, t)
    ensures forall t, u :: Inside(st, l, t) && Inside(st, l, u) ==> t == u
  {
    hide Base, NoneLost, Accounted, CondsOk;
    assert LockOk(st.threads, st.holders[l], st.semas[OfLock(l)].value, l);
    if st.semas[OfLock(l)].value == 1 {
      forall t ensures !Inside(st, l, t) { assert !Member(st.threads, st.holders[l], l, t); }
    } else {
      var t :| Member(st.threads, st.holders[l], l, t);
      assert Inside(st, l, t);
    }
  }

  /** Over every run, a call of `lock_acquire` returns only with the lock held by its caller. */
  lemma AcquireReturnsHolding(st: State, es: seq<Event>, l: nat)
    requires Inv(st) && Enabled(st, CallAcquire(l)) && Sane(st) && Legal(Step(st, CallAcquire(l)), es)
    ensures InWait(PcOf(Step(st, CallAcquire(l)).threads, st.current), l)
    ensures ReturnsHolding(Step(st, CallAcquire(l)), es, st.current, l)
  {
    hide Inv, Legal, ReturnsHolding, Sane;
    StepKeepsInv(st, CallAcquire(l));
    WaitReturnsHolding(Step(st, CallAcquire(l)), es, st.current, l);
  }

  /** The call of `lock_acquire` only enters it. */
  lemma AcquireCall(st: State, l: nat)
    requires Inv(st) && Enabled(st, CallAcquire(l))
    ensures Sane(st)
    ensures var t, r := st.current, Step(st, CallAcquire(l));
            && Inv(r) && r.current == t && l in r.holders && AtLock(r, l)
            && r == st.(threads := r.threads) && OthersSame(st, r, t)
            && (forall u :: Inside(r, l, u) <==> Inside(st, l, u))
  {
    hide Base, NoneLost, Accounted, Locks, CondsOk;
    InvIsSane(st);
    StepKeepsInv(st, CallAcquire(l));
  }

  /** The running thread is at the semaphore of a lock it is to acquire. */
  ghost predicate AtLock(st: State, l: nat) {
    && st.current != st.idle && l in st.holders
    && PcOf(st.threads, st.current).Down? && PcOf(st.threads, st.current).s == OfLock(l)
    && PcOf(st.threads, st.current).k == Acquired(l)
  }

  /** If nobody is inside it gets in, and with one more step is the holder and back at its caller. */
  lemma AcquireFree(st: State, l: nat)
    requires Inv(st) && AtLock(st, l) && forall u :: !Inside(st, l, u)
    ensures Sane(st) && Enabled(st, Continue)
    ensures var t, r := st.current, Step(st, Continue);
            && Inv(r) && Sane(r) && r.current == t && Enabled(r, Continue) && l in r.holders && Inside(r, l, t)
            && Step(r, Continue).current == t && Holding(Step(r, Continue), l, t)
  {
    hide Base, NoneLost, Accounted, Locks, CondsOk;
    InvIsSane(st);
    FreeIff(st, l);
    DownTakes(st);
    StepKeepsInv(st, Continue);
    InvIsSane(Step(st, Continue));
  }

  /** If somebody is inside it sleeps, last among the waiters, and the next thread runs. */
  lemma AcquireTaken(st: State, l: nat)
    requires Inv(st) && AtLock(st, l) && exists u :: Inside(st, l, u)
    ensures Sane(st) && Enabled(st, Continue)
    ensures var t, r := st.current, Step(st, Continue);
            && t in r.threads && r.threads[t].status == Blocked && RunsNext(st, r) && r.holders == st.holders
            && r.semas[OfLock(l)].waiters == st.semas[OfLock(l)].waiters + [t]
  {
    hide Base, NoneLost, Accounted, Locks, CondsOk, RunsNext;
    InvIsSane(st);
    FreeIff(st, l);
    DownSleeps(st);
  }

  /** Outside the primitives, with the lock's holder field its own. */
  ghost predicate Holding(st: State, l: nat, t: Tid) {
    PcOf(st.threads, t) == User && l in st.holders && st.holders[l] == Some(t)
  }

  /** `lock_try_acquire` gets into the lock, and then holds it, exactly if nobody is inside; else it changes nothing. */
  lemma TryAcquireCall(st: State, l: nat)
    requires Inv(st) && Enabled(st, CallTryAcquire(l))
    ensures Sane(st)
    ensures var t, r := st.current, Step(st, CallTryAcquire(l));
            && ((exists u :: Inside(st, l, u)) ==> r == st)
            && ((forall u :: !Inside(st, l, u)) ==>
                  && r.current == t && Sane(r) && Enabled(r, Continue) && l in r.holders && Inside(r, l, t)
                  && SameBut(st, r, OfLock(l)) && Holding(Step(r, Continue), l, t))
  {
    hide Base, NoneLost, Accounted, Locks, CondsOk;
    InvIsSane(st);
    FreeIff(st, l);
    StepKeepsInv(st, CallTryAcquire(l));
    InvIsSane(Step(st, CallTryAcquire(l)));
  }

  /** `lock_release` clears the holder field and goes on to the semaphore. */
  lemma ReleaseCall(st: State, l: nat)
    requires Inv(st) && Enabled(st, CallRelease(l))
    ensures Sane(st)
    ensures var t, r := st.current, Step(st, CallRelease(l));
            && Inv(r) && r.current == t && PcOf(r.threads, t) == UpLock(l, Return) && OthersSame(st, r, t)
            && r == st.(threads := r.threads, holders := st.holders[l := None])
  {
    hide Base, NoneLost, Accounted, Locks, CondsOk;
    InvIsSane(st);
    StepKeepsInv(st, CallRelease(l));
  }

  /**
   The next step leaves the lock: nobody is inside, and its first waiter is ready; then it returns, or waits for its
   signal.
   */
  lemma LeavesLock(st: State, l: nat)
    requires Inv(st) && st.current in st.threads && st.current != st.idle && l in st.holders
    requires st.threads[st.current].pc.UpLock? && st.threads[st.current].pc.l == l
    ensures Sane(st) && Enabled(st, Continue)
    ensures var t, r, ws := st.current, Step(st, Continue), st.semas[OfLock(l)].waiters;
            && Inv(r) && r.holders == st.holders && st.holders[l] == None && (forall u :: !Inside(r, l, u))
            && r.current == t && r.conds == st.conds
            && r.semas[OfLock(l)].waiters == (if ws == [] then [] else ws[1..])
            && r.ready == (if ws == [] then st.ready else st.ready + [ws[0]])
            && PcOf(r.threads, t) == match st.threads[t].pc.k
                 case Sleep(c, m) => Down(OfWaiter(t), false, Signalled(c, m))
                 case _ => User
  {
    hide Base, NoneLost, Accounted, CondsOk, RunsNext;
    InvIsSane(st);
    var t := st.current;
    assert LockOk(st.threads, st.holders[l], st.semas[OfLock(l)].value, l);
    assert InRegion(PcOf(st.threads, t), l) && Member(st.threads, st.holders[l], l, t);
    UpWakesFirst(st, OfLock(l));
    StepKeepsInv(st, Continue);
    FreeIff(Step(st, Continue), l);
  }

  // --------------------------------------------------------------- conditions

  /**
   `cond_wait` joins the back of the queue, still with the lock, and returns over every run only with the lock held.
   */
  lemma WaitCall(st: State, es: seq<Event>, c: nat, l: nat)
    requires Inv(st) && Enabled(st, CallWait(c, l)) && Sane(st) && Legal(Step(st, CallWait(c, l)), es)
    ensures var t, r := st.current, Step(st, CallWait(c, l));
            && r.conds == st.conds[c := st.conds[c] + [t]] && r.holders == st.holders && r.current == t
            && r.ready == st.ready && OthersSame(st, r, t) && PcOf(r.threads, t) == Release(c, l)
            && ReturnsHolding(r, es, t, l)
  {
    hide Inv, Legal, ReturnsHolding, Sane;
    StepKeepsInv(st, CallWait(c, l));
    WaitReturnsHolding(Step(st, CallWait(c, l)), es, st.current, l);
  }

  /** In two more steps of its own the waiter has left the lock to the others and is at its own semaphore. */
  lemma WaitLetsGo(st: State, c: nat, l: nat)
    requires Inv(st) && st.current in st.threads && st.current != st.idle
    requires PcOf(st.threads, st.current) == Release(c, l)
    ensures Sane(st) && Enabled(st, Continue)
    ensures var t, st1 := st.current, Step(st, Continue);
            && Sane(st1) && Enabled(st1, Continue) && st1.current == t
            && var r := Step(st1, Continue);
               && Inv(r) && l in r.holders && r.holders[l] == None && (forall u :: !Inside(r, l, u))
               && r.conds == st.conds && PcOf(r.threads, t) == Down(OfWaiter(t), false, Signalled(c, l))
  {
    hide Base, NoneLost, Accounted, Locks, CondsOk;
    InvIsSane(st);
    StepKeepsInv(st, Continue);
    var st1 := Step(st, Continue);
    InvIsSane(st1);
    LeavesLock(st1, l);
  }

  /**
   `cond_signal` with nobody waiting changes nothing; else its caller's next step posts the front waiter's semaphore.
   */
  lemma SignalCall(st: State, c: nat, l: nat)
    requires Inv(st) && Enabled(st, CallSignal(c, l))
    ensures Sane(st)
    ensures var t, st1 := st.current, Step(st, CallSignal(c, l));
            && (st.conds[c] == [] ==> st1 == st)
            && (st.conds[c] != [] ==>
                  var w := st.conds[c][0];
                  && st1.conds == st.conds[c := st.conds[c][1..]] && Sane(st1) && st1.current == t
                  && Enabled(st1, Continue)
                  && var r := Step(st1, Continue);
                     && Inv(r) && r.conds == st1.conds && r.holders == st.holders && PcOf(r.threads, t) == User
                     && Posts(st.semas, w) == 0 && Posts(r.semas, w) == 1)
  {
    hide Base, NoneLost, Accounted, Locks;
    InvIsSane(st);
    if st.conds[c] != [] {
      FrontHasSema(st, c);
      QueuedWaits(st, c, 0);
      StepKeepsInv(st, CallSignal(c, l));
      var st1 := Step(st, CallSignal(c, l));
      InvIsSane(st1);
      StepKeepsInv(st1, Continue);
    }
  }

  // ----------------------------------------------------------------- thread.c

  /** `thread_yield` with nobody else ready: the caller goes on. */
  lemma YieldAlone(st: State)
    requires Inv(st) && st.ready == []
    ensures Sane(st) && Enabled(st, Preempt) && Step(st, Preempt) == st
  {
    hide NoneLost, Accounted, Locks, CondsOk, Queued, Pcs, Scheduled;
    InvIsSane(st);
    RunnerRuns(st);
    hide Base;
    var t := st.current;
    assert st.ready + [t] == [t];
    assert st.threads[t := st.threads[t].(status := Ready)][t := st.threads[t]] == st.threads;
  }

  /**
   `thread_yield`: the caller goes to the back of the ready list, unless it is the idle thread, and the front runs.
   */
  lemma YieldCall(st: State)
    requires Inv(st) && st.ready != []
    ensures Sane(st) && Enabled(st, Preempt)
    ensures var t, n, r := st.current, st.ready[0], Step(st, Preempt);
            && t in st.threads && n in st.threads && n != t
            && r.current == n && r.ready == st.ready[1..] + (if t == st.idle then [] else [t])
            && r.threads == st.threads[t := st.threads[t].(status := Ready)][n := st.threads[n].(status := Running)]
            && r == st.(threads := r.threads, ready := r.ready, current := n)
  {
    hide NoneLost, Accounted, Locks, CondsOk, Queued, Pcs, Scheduled;
    InvIsSane(st);
    RunnerRuns(st);
    FrontIsOther(st);
    hide Base;
    assert (st.ready + [st.current])[1..] == st.ready[1..] + [st.current];
  }

  lemma FrontIsOther(st: State)
    requires Base(st) && st.ready != []
    ensures st.ready[0] in st.threads && st.ready[0] != st.current
  {
  }

  /** `thread_create`: a thread that was not there is ready, last on the list, and nothing else changes. */
  lemma CreateCall(st: State)
    requires Inv(st) && Enabled(st, Create)
    ensures Sane(st)
    ensures var n, r := st.nextTid, Step(st, Create);
            && n !in st.threads && r.threads == st.threads[n := Thread(Ready, User)] && r.ready == st.ready + [n]
            && r == st.(threads := r.threads, ready := r.ready, nextTid := n + 1)
  {
    hide NoneLost, Accounted, Locks, CondsOk, Base;
    InvIsSane(st);
    FreshTid(st);
  }

  /** `thread_exit`: the caller is gone and the next thread runs. */
  lemma ExitCall(st: State)
    requires Inv(st) && Enabled(st, Exit)
    ensures Sane(st)
    ensures var t, r := st.current, Step(st, Exit);
            && t !in r.threads && RunsNext(st, r)
            && r == st.(threads := r.threads, ready := r.ready, current := r.current)
  {
    hide NoneLost, Accounted, Locks, CondsOk, Queued, Pcs, Scheduled;
    InvIsSane(st);
    RunnerRuns(st);
    hide Base;
  }

  /** The idle thread blocks, and the next thread runs, itself if there is no other. */
  lemma IdleCall(st: State)
    requires Inv(st) && Enabled(st, IdleBlock)
    ensures Sane(st)
    ensures var t, r := st.current, Step(st, IdleBlock);
            && r == st.(threads := r.threads, ready := r.ready, current := r.current)
            && RunsNext(st, r) && t in r.threads && (st.ready != [] ==> r.threads[t].status == Blocked)
  {
    hide NoneLost, Accounted, Locks, CondsOk, Queued, Pcs, Scheduled;
    InvIsSane(st);
    RunnerRuns(st);
    if st.ready != [] { FrontIsOther(st); }
    hide Base;
  }
}
