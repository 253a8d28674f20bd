/**
 The code of threads/thread.c and threads/synch.c on mutable state.  The pieces that run with interrupts off
 keep the scheduler's lists exact; each region a thread runs without interruption is one step of the transition
 system of module Threads, and keeps the whole invariant of module Concurrency.
 */
module Kernel {
  import opened Common = Base
  import opened Threads
  import Synch
  import Concurrency
  import Primitives

  class Scheduler {
    var threads: map<Tid, Thread>
    var ready: seq<Tid>
    var current: Tid
    var idle: Tid
    var semas: map<SemaId, Sema>
    var holders: map<nat, Option<Tid>>
    var conds: map<nat, seq<Tid>>
    var nextTid: Tid

    ghost function Now(): State
      reads this
    {
      State(threads, ready, current, idle, semas, holders, conds, nextTid)
    }

    ghost predicate Valid()
      reads this
    {
      Concurrency.Inv(Now())
    }

    /** One thread runs, and the ready list is exactly the ready threads but the idle one. */
    ghost predicate Exact()
      reads this
    {
      Scheduled(threads, ready, current, idle)
    }

    /** The state once `thread_start` has returned, with semaphores, locks and conditions as initialised. */
    constructor (st: State)
      requires Concurrency.Fresh(st)
      ensures Valid() && Now() == st
    {
      threads, ready, current, idle := st.threads, st.ready, st.current, st.idle;
      semas, holders, conds, nextTid := st.semas, st.holders, st.conds, st.nextTid;
      new;
      Concurrency.FreshIsInv(st);
    }

    // --------------------------------------------------------- interrupts off

    method SetStatus(t: Tid, status: Status)
      requires t in threads
      modifies this`threads
      ensures threads == old(threads)[t := old(threads)[t].(status := status)]
    {
      threads := threads[t := threads[t].(status := status)];
    }

    method SetPc(pc: Pc)
      requires current in threads
      modifies this`threads
      ensures Now() == WithPc(old(Now()), pc)
    {
      threads := threads[current := threads[current].(pc := pc)];
    }

    /** `thread_unblock`: the thread is last in the ready list, which stays exact. */
    method ThreadUnblock(t: Tid)
      requires Exact() && t in threads && t != idle && threads[t].status == Blocked
      modifies this`threads, this`ready
      ensures Exact() && Now() == Unblock(old(Now()), t)
    {
      hide Scheduled;
      WakeKeepsScheduled(threads, ready, current, idle, t);
      ready := ready + [t];
      SetStatus(t, Ready);
    }

    /**
     `next_thread_to_run`, while nobody runs: a thread that is ready, or the idle one if no other is; every other
     ready thread is still on the list, once.
     */
    method NextThreadToRun() returns (next: Tid)
      requires Handover(threads, ready, current, idle)
      modifies this`ready
      ensures next in threads && next !in ready && Distinct(ready) && (next == idle || threads[next].status == Ready)
      ensures forall t :: t in threads && t != idle && threads[t].status == Ready ==> t == next || t in ready
      ensures next == idle ==> forall t :: t in threads && t != idle ==> threads[t].status != Ready
      ensures next == NextThread(old(Now())) && ready == (if old(ready) == [] then [] else old(ready)[1..])
    {
      if ready == [] {
        next := idle;
      } else {
        ghost var all := ready;
        next := ready[0];
        ready := ready[1..];
        forall t | t in all && t != next ensures t in ready { InTail(all, t); }
      }
    }

    /** `schedule` and `schedule_tail`, from a thread that has given up the CPU: the lists are exact again. */
    method Switch()
      requires Handover(threads, ready, current, idle)
      modifies this`threads, this`ready, this`current
      ensures NextThread(old(Now())) in old(threads) && Now() == Schedule(old(Now())) && Exact()
    {
      hide Scheduled, Handover;
      PreviousAndNext(Now());
      ScheduleKeepsScheduled(Now());
      var prev := current;
      var next := NextThreadToRun();
      current := next;
      SetStatus(current, Running);
      if prev != current && threads[prev].status == Dying {
        threads := threads - {prev};
      }
      assert threads == Schedule(old(Now())).threads;
    }

    /** `thread_block`. */
    method ThreadBlock()
      requires Exact()
      modifies this`threads, this`ready, this`current
      ensures Exact() && NextThread(old(Now())) in old(threads) && Now() == Leave(old(Now()), Blocked)
    {
      hide Scheduled, Handover;
      CurrentAndNext(Now());
      LeaveIsHandover(threads, ready, current, idle, Blocked);
      SetStatus(current, Blocked);
      Switch();
    }

    /** `sema_up`: the first waiter is on the ready list, and every list is exact. */
    method RaiseSema(s: SemaId)
      requires Base(Now()) && s in semas
      modifies this`threads, this`ready, this`semas
      ensures Sane(old(Now())) && Now() == Threads.SemaUp(old(Now()), s)
      ensures Exact() && Queued(threads, idle, semas)
    {
      hide Scheduled, Queued, Pcs;
      UpKeepsQueues(Now(), s);
      if semas[s].waiters != [] {
        var t := semas[s].waiters[0];
        WakeKeepsQueued(threads, idle, semas, s, semas[s].(waiters := semas[s].waiters[1..]));
        semas := semas[s := semas[s].(waiters := semas[s].waiters[1..])];
        ThreadUnblock(t);
      }
      semas := semas[s := semas[s].(value := semas[s].value + 1, ups := semas[s].ups + 1)];
      assert semas == Threads.SemaUp(old(Now()), s).semas;
    }

    /** One turn of the loop of `sema_down`; a thread that sleeps comes back here when it runs again. */
    method DownTurn()
      requires Base(Now()) && current in threads && current != idle && threads[current].pc.Down?
      modifies this`threads, this`ready, this`current, this`semas
      ensures Sane(old(Now())) && Now() == DownStep(old(Now())) && Exact()
    {
      hide Scheduled, Queued, Pcs, Handover;
      BaseIsSane(Now());
      var Down(s, slept, k) := threads[current].pc;
      if semas[s].value == 0 {
        PcKeepsScheduled(Now(), Down(s, true, k));
        SetPc(Down(s, true, k));
        semas := semas[s := semas[s].(waiters := semas[s].waiters + [current])];
        ThreadBlock();
      } else {
        PcKeepsScheduled(Now(), AfterDown(k));
        semas := semas[s := semas[s].(value := semas[s].value - 1, downs := semas[s].downs + 1)];
        SetPc(AfterDown(k));
      }
    }

    // --------------------------------------------------------------- thread.c

    /** `thread_yield`, called or at the end of a time slice. */
    method ThreadYield()
      requires Valid()
      modifies this`threads, this`ready, this`current
      ensures Valid() && Sane(old(Now())) && Now() == Step(old(Now()), Preempt)
    {
      hide Concurrency.Inv, Scheduled, Handover;
      Concurrency.InvIsSane(Now());
      Concurrency.StepKeepsInv(Now(), Preempt);
      LeaveIsHandover(threads, ready, current, idle, Ready);
      if current != idle {
        ready := ready + [current];
      }
      SetStatus(current, Ready);
      Switch();
    }

    /** The end of `thread_exit`. */
    method ThreadExit()
      requires Valid() && Enabled(Now(), Exit)
      modifies this`threads, this`ready, this`current
      ensures Valid() && Sane(old(Now())) && Now() == Step(old(Now()), Exit)
    {
      hide Concurrency.Inv, Scheduled, Handover;
      Concurrency.InvIsSane(Now());
      Concurrency.StepKeepsInv(Now(), Exit);
      LeaveIsHandover(threads, ready, current, idle, Dying);
      SetStatus(current, Dying);
      Switch();
    }

    /** `idle` blocks until somebody else is ready. */
    method IdleSleeps()
      requires Valid() && Enabled(Now(), IdleBlock)
      modifies this`threads, this`ready, this`current
      ensures Valid() && Sane(old(Now())) && Now() == Step(old(Now()), IdleBlock)
    {
      hide Concurrency.Inv, Scheduled;
      Concurrency.InvIsSane(Now());
      Concurrency.StepKeepsInv(Now(), IdleBlock);
      ThreadBlock();
    }

    /** `thread_create`, once the new thread's page has been set up. */
    method ThreadCreate() returns (t: Tid)
      requires Valid()
      modifies this`threads, this`ready, this`nextTid
      ensures Valid() && t !in old(threads) && t in ready && Sane(old(Now())) && Enabled(old(Now()), Create)
      ensures Now() == Step(old(Now()), Create)
    {
      hide Concurrency.Inv, Scheduled;
      Concurrency.InvIsSane(Now());
      Synch.FreshTid(Now());
      Concurrency.StepKeepsInv(Now(), Create);
      t := nextTid;
      nextTid := nextTid + 1;
      BlockedKeepsScheduled(threads, ready, current, idle, t);
      threads := threads[t := Thread(Blocked, User)];
      ThreadUnblock(t);
    }

    // ---------------------------------------------------------------- synch.c

    /** `sema_up` of a client's semaphore. */
    method SemaUp(n: nat)
      requires Valid() && Plain(n) in semas
      modifies this`threads, this`ready, this`semas
      ensures Valid() && Sane(old(Now())) && Enabled(old(Now()), CallUp(n)) && Now() == Step(old(Now()), CallUp(n))
    {
      hide Concurrency.Inv, Base;
      Concurrency.InvIsSane(Now());
      Concurrency.StepKeepsInv(Now(), CallUp(n));
      RaiseSema(Plain(n));
    }

    /**
     `sema_try_down`: takes one off a positive value without waking, queueing or moving anybody, and keeps every
     invariant.
     */
    method SemaTryDown(n: nat) returns (success: bool)
      requires Valid() && Plain(n) in semas
      modifies this`semas
      ensures Valid() && Sane(old(Now())) && Enabled(old(Now()), CallTryDown(n))
      ensures Now() == Step(old(Now()), CallTryDown(n))
      ensures success <==> semas[Plain(n)].downs == old(semas)[Plain(n)].downs + 1
    {
      hide Concurrency.Inv;
      Concurrency.InvIsSane(Now());
      Concurrency.StepKeepsInv(Now(), CallTryDown(n));
      success := TakeIfPositive(Plain(n));
    }

    method TakeIfPositive(s: SemaId) returns (success: bool)
      requires s in semas
      modifies this`semas
      ensures success == (old(semas)[s].value > 0)
      ensures var x := old(semas)[s];
              semas == if success then old(semas)[s := x.(value := x.value - 1, downs := x.downs + 1)] else old(semas)
    {
      success := semas[s].value > 0;
      if success {
        semas := semas[s := semas[s].(value := semas[s].value - 1, downs := semas[s].downs + 1)];
      }
    }

    /** The call of `sema_down`; its loop is in `Continue`. */
    method SemaDown(n: nat)
      requires Valid() && Enabled(Now(), CallDown(n))
      modifies this`threads
      ensures Valid() && Sane(old(Now())) && Now() == Step(old(Now()), CallDown(n))
      ensures Primitives.InDown(Synch.PcOf(threads, current), n)
    {
      hide Concurrency.Inv;
      Concurrency.StepKeepsInv(Now(), CallDown(n));
      SetPc(Down(Plain(n), false, Return));
    }

    /** The call of `lock_acquire`, up to its `sema_down`. */
    method LockAcquire(l: nat)
      requires Valid() && Enabled(Now(), CallAcquire(l))
      modifies this`threads
      ensures Valid() && Sane(old(Now())) && Now() == Step(old(Now()), CallAcquire(l))
      ensures Concurrency.InWait(Synch.PcOf(threads, current), l)
    {
      hide Concurrency.Inv;
      Concurrency.StepKeepsInv(Now(), CallAcquire(l));
      SetPc(Down(OfLock(l), false, Acquired(l)));
    }

    /** `lock_try_acquire`, up to the record of the holder; on success nobody else has the lock. */
    method LockTryAcquire(l: nat) returns (success: bool)
      requires Valid() && Enabled(Now(), CallTryAcquire(l))
      modifies this`threads, this`semas
      ensures Valid() && Sane(old(Now())) && Now() == Step(old(Now()), CallTryAcquire(l))
      ensures success <==> forall t :: !Primitives.Inside(old(Now()), l, t)
      ensures success ==> forall t :: Primitives.Inside(Now(), l, t) <==> t == current
    {
      hide Concurrency.Inv;
      Concurrency.StepKeepsInv(Now(), CallTryAcquire(l));
      Primitives.FreeIff(Now(), l);
      success := TakeIfPositive(OfLock(l));
      if success {
        SetPc(SetHolder(l));
        OneMember(Now(), l);
      }
    }

    /** `lock_release`, up to its `sema_up`. */
    method LockRelease(l: nat)
      requires Valid() && Enabled(Now(), CallRelease(l))
      modifies this`threads, this`holders
      ensures Valid() && Sane(old(Now())) && Now() == Step(old(Now()), CallRelease(l))
      ensures l in holders && holders[l] == None && Synch.PcOf(threads, current) == UpLock(l, Return)
    {
      hide Concurrency.Inv;
      Concurrency.StepKeepsInv(Now(), CallRelease(l));
      holders := holders[l := None];
      SetPc(UpLock(l, Return));
    }

    /** `cond_wait`, up to its `lock_release`: a fresh semaphore, at the back of the queue. */
    method CondWait(c: nat, l: nat)
      requires Valid() && Enabled(Now(), CallWait(c, l))
      modifies this`threads, this`semas, this`conds
      ensures Valid() && Sane(old(Now())) && Now() == Step(old(Now()), CallWait(c, l))
      ensures conds == old(conds)[c := old(conds)[c] + [current]] && Concurrency.InWait(Synch.PcOf(threads, current), l)
    {
      hide Concurrency.Inv;
      Concurrency.StepKeepsInv(Now(), CallWait(c, l));
      semas := semas[OfWaiter(current) := Sema(0, [], 0, 0, 0)];
      conds := conds[c := conds[c] + [current]];
      SetPc(Release(c, l));
    }

    /** `cond_signal`, up to its `sema_up`: the front waiter is taken off, or nobody waits. */
    method CondSignal(c: nat, l: nat)
      requires Valid() && Enabled(Now(), CallSignal(c, l))
      modifies this`threads, this`conds
      ensures c in old(conds) && (old(conds)[c] != [] ==> Synch.PcOf(threads, current) == UpWaiter(old(conds)[c][0]))
      ensures Valid() && Sane(old(Now())) && Now() == Step(old(Now()), CallSignal(c, l))
    {
      hide Concurrency.Inv;
      Concurrency.StepKeepsInv(Now(), CallSignal(c, l));
      if conds[c] != [] {
        var w := conds[c][0];
        conds := conds[c := conds[c][1..]];
        SetPc(UpWaiter(w));
      }
    }

    /**
     The running thread goes on in the primitive it is in: the rest of `lock_acquire`, `lock_release`, `cond_wait` and
     `cond_signal`.
     */
    method Continue()
      requires Valid() && Enabled(Now(), Threads.Continue)
      modifies this`threads, this`ready, this`current, this`semas, this`holders
      ensures Valid() && Sane(old(Now())) && Now() == Step(old(Now()), Threads.Continue)
    {
      hide Concurrency.Inv, Base;
      Concurrency.InvIsSane(Now());
      Concurrency.StepKeepsInv(Now(), Threads.Continue);
      var t := current;
      match threads[current].pc
      case Down(_, _, _) => DownTurn();
      case SetHolder(l) =>
        holders := holders[l := Some(t)];
        SetPc(User);
      case Release(c, l) =>
        holders := holders[l := None];
        SetPc(UpLock(l, Sleep(c, l)));
      case UpWaiter(w) =>
        RaiseSema(OfWaiter(w));
        SetPc(User);
      case UpLock(l, k) =>
        RaiseSema(OfLock(l));
        SetPc(if k.Sleep? then Down(OfWaiter(t), false, Signalled(k.c, k.l)) else User);
    }
  }

  lemma PreviousAndNext(st: State)
    requires Handover(st.threads, st.ready, st.current, st.idle)
    ensures st.current in st.threads && NextThread(st) in st.threads && st.threads[NextThread(st)].status != Dying
  {
  }

  lemma CurrentAndNext(st: State)
    requires Scheduled(st.threads, st.ready, st.current, st.idle)
    ensures st.current in st.threads && NextThread(st) in st.threads
  {
  }

  lemma BlockedKeepsScheduled(threads: map<Tid, Thread>, ready: seq<Tid>, current: Tid, idle: Tid, t: Tid)
    requires Scheduled(threads, ready, current, idle) && t !in threads
    ensures Scheduled(threads[t := Thread(Blocked, User)], ready, current, idle) && t != idle
  {
  }

  /** A thread about to record itself as holder is the only one in the lock. */
  lemma OneMember(st: State, l: nat)
    requires Concurrency.Inv(st) && st.current in st.threads && st.threads[st.current].pc == SetHolder(l)
    requires l in st.holders
    ensures forall t :: Primitives.Inside(st, l, t) <==> t == st.current
  {
    Primitives.FreeIff(st, l);
    assert Primitives.Inside(st, l, st.current);
  }
}
