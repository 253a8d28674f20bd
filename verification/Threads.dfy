/**
 Threads, the round-robin scheduler (threads/thread.c) and the synchronisation
 primitives (threads/synch.c) as one transition system.  Each region that runs with
 interrupts off is one step; between steps any interleaving is possible.
 */
module Threads {
  import opened Common = Base

  type Tid = nat

  datatype Status = Running | Ready | Blocked | Dying

  /** A semaphore is a client's, the one inside a lock, or the one a thread waits on in `cond_wait`. */
  datatype SemaId = Plain(n: nat) | OfLock(l: nat) | OfWaiter(t: Tid)

  /** What a thread does once its `sema_down` succeeds, or once it has released a lock. */
  datatype Then =
    | Return                          // back to the caller
    | Acquired(l: nat)                // lock_acquire: record the holder
    | Signalled(c: nat, l: nat)       // cond_wait: reacquire the lock
    | Sleep(c: nat, l: nat)           // cond_wait: sleep until signalled

  /** Where a thread stands. */
  datatype Pc =
    | User                                        // outside the primitives
    | Down(s: SemaId, slept: bool, k: Then)       // in sema_down, about to test the value
    | SetHolder(l: nat)                           // in lock_acquire, after sema_down
    | UpLock(l: nat, k: Then)                     // in lock_release, holder cleared
    | Release(c: nat, l: nat)                     // in cond_wait, queued on the condition
    | UpWaiter(t: Tid)                            // in cond_signal, waiter popped

  datatype Thread = Thread(status: Status, pc: Pc)

  /** A semaphore, with the history of its initial value and completed operations. */
  datatype Sema = Sema(value: nat, waiters: seq<Tid>, init: nat, ups: nat, downs: nat)

  datatype State = State(
    threads: map<Tid, Thread>,
    ready: seq<Tid>,                  // ready_list
    current: Tid,
    idle: Tid,
    semas: map<SemaId, Sema>,
    holders: map<nat, Option<Tid>>,   // lock->holder
    conds: map<nat, seq<Tid>>,        // cond->waiters
    nextTid: Tid)

  // ------------------------------------------------------------- thread.c

  function WithPc(st: State, pc: Pc): (r: State)
    requires st.current in st.threads
  {
    st.(threads := st.threads[st.current := st.threads[st.current].(pc := pc)])
  }

  /** `thread_unblock`. */
  function Unblock(st: State, t: Tid): (r: State)
    requires t in st.threads
  {
    st.(threads := st.threads[t := st.threads[t].(status := Ready)], ready := st.ready + [t])
  }

  /** `next_thread_to_run`. */
  function NextThread(st: State): (t: Tid) {
    if st.ready == [] then st.idle else st.ready[0]
  }

  /** `schedule`, from a thread whose status is no longer running; a dying one is destroyed. */
  function Schedule(st: State): (r: State)
    requires st.current in st.threads && NextThread(st) in st.threads
  {
    var next := NextThread(st);
    var kept := if st.threads[st.current].status == Dying then st.threads - {st.current} else st.threads;
    st.(threads := if next in kept then kept[next := kept[next].(status := Running)] else kept,
        ready := if st.ready == [] then [] else st.ready[1..],
        current := next)
  }

  /** The running thread takes another status and gives up the CPU. */
  function Leave(st: State, status: Status): (r: State)
    requires st.current in st.threads && NextThread(st) in st.threads
  {
    Schedule(st.(threads := st.threads[st.current := st.threads[st.current].(status := status)]))
  }

  /** `thread_yield`: the idle thread is not put on the ready list. */
  function Yield(st: State): (r: State)
    requires st.current in st.threads && st.idle in st.threads && (forall t :: t in st.ready ==> t in st.threads)
  {
    Leave(if st.current == st.idle then st else st.(ready := st.ready + [st.current]), Ready)
  }

  // -------------------------------------------------------------- synch.c

  function PutSema(st: State, s: SemaId, x: Sema): (r: State) {
    st.(semas := st.semas[s := x])
  }

  /** `sema_up`: wake the first waiter, if any, and increment the value. */
  function SemaUp(st: State, s: SemaId): (r: State)
    requires s in st.semas && (st.semas[s].waiters != [] ==> st.semas[s].waiters[0] in st.threads)
  {
    var x := st.semas[s];
    if x.waiters == [] then PutSema(st, s, x.(value := x.value + 1, ups := x.ups + 1))
    else
      PutSema(Unblock(st, x.waiters[0]), s, x.(waiters := x.waiters[1..], value := x.value + 1, ups := x.ups + 1))
  }

  /** The continuation of a thread after a completed `sema_down`. */
  function AfterDown(k: Then): (pc: Pc) {
    match k
    case Return => User
    case Acquired(l) => SetHolder(l)
    case Signalled(_, l) => Down(OfLock(l), false, Acquired(l))
    case Sleep(_, _) => User
  }

  /** One turn of the loop of `sema_down`: decrement the value, or queue up and block. */
  function DownStep(st: State): (r: State)
    requires st.current in st.threads && NextThread(st) in st.threads
    requires st.threads[st.current].pc.Down? && st.threads[st.current].pc.s in st.semas
  {
    var Down(s, slept, k) := st.threads[st.current].pc;
    var x := st.semas[s];
    if x.value == 0 then
      Leave(PutSema(WithPc(st, Down(s, true, k)), s, x.(waiters := x.waiters + [st.current])), Blocked)
    else
      PutSema(WithPc(st, AfterDown(k)), s, x.(value := x.value - 1, downs := x.downs + 1))
  }

  // --------------------------------------------------------------- events

  datatype Event =
    | Continue                              // the running thread goes on in the primitive it is in
    | CallDown(n: nat) | CallUp(n: nat) | CallTryDown(n: nat)
    | CallAcquire(l: nat) | CallTryAcquire(l: nat) | CallRelease(l: nat)
    | CallWait(c: nat, l: nat) | CallSignal(c: nat, l: nat)
    | Preempt                               // thread_yield, by the thread or at the end of its time slice
    | Create | Exit | IdleBlock

  /** The assertions of the called function hold, and the caller is where it can call it. */
  predicate Enabled(st: State, e: Event) {
    st.current in st.threads &&
    var pc := st.threads[st.current].pc;
    match e
    case Continue => st.current != st.idle && pc != User
    case CallDown(n) => st.current != st.idle && pc == User && Plain(n) in st.semas
    case CallUp(n) => Plain(n) in st.semas
    case CallTryDown(n) => Plain(n) in st.semas
    case CallAcquire(l) => st.current != st.idle && pc == User && l in st.holders && st.holders[l] != Some(st.current)
    case CallTryAcquire(l) => st.current != st.idle && pc == User && l in st.holders
      && st.holders[l] != Some(st.current)
    case CallRelease(l) => st.current != st.idle && pc == User && l in st.holders && st.holders[l] == Some(st.current)
    case CallWait(c, l) => st.current != st.idle && pc == User && c in st.conds && l in st.holders
      && st.holders[l] == Some(st.current)
    case CallSignal(c, l) => st.current != st.idle && pc == User && c in st.conds && l in st.holders
      && st.holders[l] == Some(st.current)
    case Preempt => true
    case Create => true
    case Exit => st.current != st.idle && pc == User
    case IdleBlock => st.current == st.idle
  }

  /** The thread, lock and condition names an event needs are there; part of the invariant below. */
  predicate Sane(st: State) {
    && st.current in st.threads && st.idle in st.threads
    && (forall t :: t in st.ready ==> t in st.threads)
    && (forall s :: s in st.semas ==> forall t :: t in st.semas[s].waiters ==> t in st.threads)
    && (forall l :: l in st.holders ==> OfLock(l) in st.semas)
    && PcSane(st, st.threads[st.current].pc)
  }

  predicate PcSane(st: State, pc: Pc) {
    match pc
    case Down(s, _, _) => s in st.semas
    case SetHolder(l) => l in st.holders
    case UpLock(l, _) => OfLock(l) in st.semas
    case Release(_, l) => l in st.holders
    case UpWaiter(t) => OfWaiter(t) in st.semas
    case User => true
  }

  /** The next step of a thread that is inside a primitive. */
  function Go(st: State): (r: State)
    requires Sane(st)
  {
    match st.threads[st.current].pc
    case User => st
    case Down(_, _, _) => DownStep(st)
    case SetHolder(l) => WithPc(st.(holders := st.holders[l := Some(st.current)]), User)
    case Release(c, l) => WithPc(st.(holders := st.holders[l := None]), UpLock(l, Sleep(c, l)))
    case UpWaiter(t) => WithPc(SemaUp(st, OfWaiter(t)), User)
    case UpLock(l, k) =>
      WithPc(SemaUp(st, OfLock(l)),
             if k.Sleep? then Down(OfWaiter(st.current), false, Signalled(k.c, k.l)) else User)
  }

  function Step(st: State, e: Event): (r: State)
    requires Sane(st) && Enabled(st, e)
  {
    match e
    case Continue => Go(st)
    case CallDown(n) => WithPc(st, Down(Plain(n), false, Return))
    case CallUp(n) => SemaUp(st, Plain(n))
    case CallTryDown(n) =>
      var x := st.semas[Plain(n)];
      if x.value > 0 then PutSema(st, Plain(n), x.(value := x.value - 1, downs := x.downs + 1)) else st
    case CallAcquire(l) => WithPc(st, Down(OfLock(l), false, Acquired(l)))
    case CallTryAcquire(l) =>
      var x := st.semas[OfLock(l)];
      if x.value > 0 then WithPc(PutSema(st, OfLock(l), x.(value := x.value - 1, downs := x.downs + 1)), SetHolder(l))
          else st
    case CallRelease(l) => WithPc(st.(holders := st.holders[l := None]), UpLock(l, Return))
    case CallWait(c, l) =>
      WithPc(PutSema(st, OfWaiter(st.current),
          Sema(0, [], 0, 0, 0)).(conds := st.conds[c := st.conds[c] + [st.current]]), Release(c, l))
    case CallSignal(c, _) =>
      var ws := st.conds[c];
      if ws == [] then st else WithPc(st.(conds := st.conds[c := ws[1..]]), UpWaiter(ws[0]))
    case Preempt => Yield(st)
    case Create =>
      Unblock(st.(threads := st.threads[st.nextTid := Thread(Blocked, User)], nextTid := st.nextTid + 1), st.nextTid)
    case Exit => Leave(st, Dying)
    case IdleBlock => Leave(st, Blocked)
  }

  // ------------------------------------------------------------ invariant

  /** One thread runs; the other threads but the idle one are on the ready list exactly if they are ready. */
  ghost predicate Scheduled(threads: map<Tid, Thread>, ready: seq<Tid>, current: Tid, idle: Tid) {
    && current in threads && idle in threads && threads[idle].pc == User
    && (forall t :: t in threads ==> threads[t].status != Dying && (threads[t].status == Running <==> t == current))
    && Distinct(ready)
    && (forall i :: 0 <= i < |ready| ==> ready[i] in threads && ready[i] != idle && threads[ready[i]].status == Ready)
    && (forall t :: t in threads && t != idle && threads[t].status == Ready ==> t in ready)
  }

  /** A thread asleep on a semaphore: blocked inside its `sema_down`. */
  ghost predicate Asleep(th: Thread, s: SemaId) {
    th.status == Blocked && th.pc.Down? && th.pc.s == s && th.pc.slept
  }

  /** Each semaphore's waiters are exactly the threads asleep on it, and no other thread is blocked. */
  ghost predicate Queued(threads: map<Tid, Thread>, idle: Tid, semas: map<SemaId, Sema>) {
    && (forall s :: s in semas ==> WaitersOk(threads, idle, semas[s].waiters, s))
    && (forall t :: t in threads && t != idle && threads[t].status == Blocked ==>
          threads[t].pc.Down? && threads[t].pc.s in semas && t in semas[threads[t].pc.s].waiters)
  }

  ghost predicate WaitersOk(threads: map<Tid, Thread>, idle: Tid, waiters: seq<Tid>, s: SemaId) {
    && Distinct(waiters)
    && forall i :: 0 <= i < |waiters| ==> waiters[i] in threads && waiters[i] != idle && Asleep(threads[waiters[i]], s)
  }

  /** A thread is in a `sema_down` only on a semaphore and with a continuation that belong together. */
  ghost predicate PcOk(t: Tid, pc: Pc, semas: map<SemaId, Sema>, holders: map<nat, Option<Tid>>) {
    match pc
    case User => true
    case Down(s, _, k) =>
      && s in semas
      && (match s
          case Plain(_) => k == Return
          case OfLock(l) => l in holders && k == Acquired(l)
          case OfWaiter(u) => u == t && k.Signalled? && k.l in holders)
    case SetHolder(l) => l in holders
    case UpLock(l, k) => l in holders && (k == Return || (k.Sleep? && k.l == l && OfWaiter(t) in semas))
    case Release(_, l) => l in holders && OfWaiter(t) in semas
    case UpWaiter(u) => OfWaiter(u) in semas
  }

  ghost predicate Pcs(st: State) {
    && (forall t :: t in st.threads ==> t < st.nextTid && PcOk(t, st.threads[t].pc, st.semas, st.holders))
    && (forall l :: l in st.holders ==> OfLock(l) in st.semas)
    && (forall l :: l in st.holders && st.holders[l].Some? ==> st.holders[l].value < st.nextTid)
  }

  ghost predicate Base(st: State) {
    && Scheduled(st.threads, st.ready, st.current, st.idle)
    && Queued(st.threads, st.idle, st.semas)
    && Pcs(st)
  }

  lemma BaseIsSane(st: State)
    requires Base(st)
    ensures Sane(st)
  {
    forall s | s in st.semas
      ensures forall t :: t in st.semas[s].waiters ==> t in st.threads
    {
      assert WaitersOk(st.threads, st.idle, st.semas[s].waiters, s);
    }
    assert PcOk(st.current, st.threads[st.current].pc, st.semas, st.holders);
  }

  // The scheduling moves keep the scheduler's part of the invariant.

  /** The running thread changes what it is doing. */
  lemma PcKeepsScheduled(st: State, pc: Pc)
    requires Scheduled(st.threads, st.ready, st.current, st.idle) && Queued(st.threads, st.idle, st.semas)
    requires st.current != st.idle
    ensures Scheduled(WithPc(st, pc).threads, st.ready, st.current, st.idle)
    ensures Queued(WithPc(st, pc).threads, st.idle, st.semas)
  {
    var threads' := WithPc(st, pc).threads;
    forall s | s in st.semas ensures WaitersOk(threads', st.idle, st.semas[s].waiters, s) {
      assert WaitersOk(st.threads, st.idle, st.semas[s].waiters, s);
    }
  }

  lemma WakeKeepsScheduled(threads: map<Tid, Thread>, ready: seq<Tid>, current: Tid, idle: Tid, w: Tid)
    requires Scheduled(threads, ready, current, idle) && w in threads && w != idle && threads[w].status == Blocked
    ensures Scheduled(threads[w := threads[w].(status := Ready)], ready + [w], current, idle)
  {
    var ready' := ready + [w];
    assert ready'[|ready|] == w;
    assert forall t :: t in ready ==> t in ready';
  }

  /** Taking the first waiter off a semaphore and waking it leaves every queue exact. */
  lemma WakeKeepsQueued(threads: map<Tid, Thread>, idle: Tid, semas: map<SemaId, Sema>, s: SemaId, x: Sema)
    requires Queued(threads, idle, semas) && s in semas && semas[s].waiters != [] && x.waiters == semas[s].waiters[1..]
    ensures var w := semas[s].waiters[0];
            w in threads && w != idle && Asleep(threads[w], s)
            && Queued(threads[w := threads[w].(status := Ready)], idle, semas[s := x])
  {
    var ws := semas[s].waiters;
    assert WaitersOk(threads, idle, ws, s);
    var w := ws[0];
    var threads', semas' := threads[w := threads[w].(status := Ready)], semas[s := x];
    forall u | u in semas' ensures WaitersOk(threads', idle, semas'[u].waiters, u) {
      assert WaitersOk(threads, idle, semas[u].waiters, u);
    }
    forall t | t in threads' && t != idle && threads'[t].status == Blocked
      ensures threads'[t].pc.Down? && threads'[t].pc.s in semas' && t in semas'[threads'[t].pc.s].waiters
    {
      assert t != w && threads[t].status == Blocked;
      assert threads[t].pc.s == s ==> t in ws;
    }
  }

  lemma PutKeepsQueued(threads: map<Tid, Thread>, idle: Tid, semas: map<SemaId, Sema>, s: SemaId, x: Sema)
    requires Queued(threads, idle, semas) && (if s in semas then x.waiters == semas[s].waiters else x.waiters == [])
    ensures Queued(threads, idle, semas[s := x])
  {
    var semas' := semas[s := x];
    forall u | u in semas' ensures WaitersOk(threads, idle, semas'[u].waiters, u) {
      if u in semas { assert WaitersOk(threads, idle, semas[u].waiters, u); }
    }
  }

  /** `sema_up` keeps the queues. */
  lemma UpKeepsQueues(st: State, s: SemaId)
    requires Base(st) && s in st.semas
    ensures Sane(st)
    ensures var st' := SemaUp(st, s);
            Scheduled(st'.threads, st'.ready, st'.current, st'.idle) && Queued(st'.threads, st'.idle, st'.semas)
  {
    hide Scheduled, Queued, Pcs;
    BaseIsSane(st);
    var x := st.semas[s];
    if x.waiters == [] {
      PutKeepsQueued(st.threads, st.idle, st.semas, s, x.(value := x.value + 1, ups := x.ups + 1));
    } else {
      WakeKeepsQueued(st.threads, st.idle, st.semas, s,
          x.(waiters := x.waiters[1..], value := x.value + 1, ups := x.ups + 1));
      WakeKeepsScheduled(st.threads, st.ready, st.current, st.idle, x.waiters[0]);
    }
  }

  /** Between a thread giving up the CPU and the next one getting it: nobody runs. */
  ghost predicate Handover(threads: map<Tid, Thread>, ready: seq<Tid>, current: Tid, idle: Tid) {
    && current in threads && idle in threads && threads[idle].pc == User && threads[idle].status != Dying
    && (forall t :: t in threads ==> threads[t].status != Running && (threads[t].status == Dying ==> t == current))
    && Distinct(ready)
    && (forall i :: 0 <= i < |ready| ==> ready[i] in threads && ready[i] != idle && threads[ready[i]].status == Ready)
    && (forall t :: t in threads && t != idle && threads[t].status == Ready ==> t in ready)
  }

  lemma ScheduleKeepsScheduled(st: State)
    requires Handover(st.threads, st.ready, st.current, st.idle)
    ensures NextThread(st) in st.threads
    ensures var r := Schedule(st); Scheduled(r.threads, r.ready, r.current, r.idle)
  {
    hide Distinct;
    ScheduleKeepsReady(st);
    TailDistinct(st.ready);
  }

  /** The ready list loses its head, the thread that runs now. */
  lemma ScheduleKeepsReady(st: State)
    requires Handover(st.threads, st.ready, st.current, st.idle)
    ensures NextThread(st) in st.threads
    ensures var r := Schedule(st);
            && (forall i :: 0 <= i < |r.ready| ==>
                   r.ready[i] in r.threads && r.ready[i] != r.idle && r.threads[r.ready[i]].status == Ready)
            && (forall t :: t in r.threads && t != r.idle && r.threads[t].status == Ready ==> t in r.ready)
  {
    var r := Schedule(st);
    forall i | 0 <= i < |r.ready|
      ensures r.ready[i] in r.threads && r.ready[i] != r.idle && r.threads[r.ready[i]].status == Ready {
      assert r.ready[i] == st.ready[i + 1];
    }
    forall t | t in r.threads && t != r.idle && r.threads[t].status == Ready ensures t in r.ready {
      assert t in st.threads && t in st.ready;
      InTail(st.ready, t);
    }
  }

  lemma InTail(q: seq<Tid>, t: Tid)
    requires t in q && t != q[0]
    ensures t in q[1..]
  {
    assert q == [q[0]] + q[1..];
  }

  lemma TailDistinct(q: seq<Tid>)
    requires Distinct(q)
    ensures Distinct(if q == [] then [] else q[1..])
  {
  }

  /** The running thread blocks, dies, or queues up behind the ready threads. */
  lemma LeaveIsHandover(threads: map<Tid, Thread>, ready: seq<Tid>, current: Tid, idle: Tid, status: Status)
    requires Scheduled(threads, ready, current, idle) && status != Running && (status == Dying ==> current != idle)
    ensures Handover(threads[current := threads[current].(status := status)],
                     if status == Ready && current != idle then ready + [current] else ready, current, idle)
  {
    var queue := if status == Ready && current != idle then ready + [current] else ready;
    assert forall t :: t in ready ==> t in queue;
    assert status == Ready && current != idle ==> queue[|ready|] == current;
  }

  /** A thread that was not asleep on a semaphore may change its status to anything but asleep elsewhere. */
  lemma ScheduleKeepsQueued(st: State, semas: map<SemaId, Sema>)
    requires Handover(st.threads, st.ready, st.current, st.idle) && NextThread(st) in st.threads
    requires Queued(st.threads, st.idle, semas)
    ensures Queued(Schedule(st).threads, st.idle, semas)
  {
    var r := Schedule(st);
    forall u | u in semas ensures WaitersOk(r.threads, st.idle, semas[u].waiters, u) {
      assert WaitersOk(st.threads, st.idle, semas[u].waiters, u);
      forall i | 0 <= i < |semas[u].waiters|
        ensures semas[u].waiters[i] in r.threads && Asleep(r.threads[semas[u].waiters[i]], u)
      {
        assert Asleep(st.threads[semas[u].waiters[i]], u);
      }
    }
  }

  /** The running thread is on no semaphore's queue, so its status is free as long as it does not block. */
  lemma StatusKeepsQueued(threads: map<Tid, Thread>, ready: seq<Tid>, current: Tid, idle: Tid, semas: map<SemaId, Sema>,
                          status: Status)
    requires Scheduled(threads, ready, current, idle) && Queued(threads, idle, semas)
    requires (status == Blocked ==> current == idle)
    ensures Queued(threads[current := threads[current].(status := status)], idle, semas)
  {
    var threads' := threads[current := threads[current].(status := status)];
    forall u | u in semas ensures WaitersOk(threads', idle, semas[u].waiters, u) {
      assert WaitersOk(threads, idle, semas[u].waiters, u);
    }
  }

  /** The running thread joins the waiters of a semaphore and blocks. */
  lemma SleepKeepsQueued(threads: map<Tid, Thread>, ready: seq<Tid>, current: Tid, idle: Tid, semas: map<SemaId, Sema>,
                         s: SemaId, k: Then, x: Sema)
    requires Scheduled(threads, ready, current, idle) && Queued(threads, idle, semas)
    requires current != idle && s in semas && x.waiters == semas[s].waiters + [current]
    ensures Queued(threads[current := Thread(Blocked, Down(s, true, k))], idle, semas[s := x])
  {
    var threads', semas' := threads[current := Thread(Blocked, Down(s, true, k))], semas[s := x];
    assert x.waiters[|semas[s].waiters|] == current;
    forall u | u in semas' ensures WaitersOk(threads', idle, semas'[u].waiters, u) {
      assert WaitersOk(threads, idle, semas[u].waiters, u);
    }
    forall t | t in threads' && t != idle && threads'[t].status == Blocked
      ensures threads'[t].pc.Down? && threads'[t].pc.s in semas' && t in semas'[threads'[t].pc.s].waiters
    {
      if t != current {
        assert t in semas[threads[t].pc.s].waiters;
        assert forall w :: w in semas[s].waiters ==> w in x.waiters;
      }
    }
  }

  /** The scheduler's and the queues' part of the invariant. */
  ghost predicate Flow(st: State) {
    Scheduled(st.threads, st.ready, st.current, st.idle) && Queued(st.threads, st.idle, st.semas)
  }

  lemma LeaveKeepsFlow(st: State, status: Status)
    requires Flow(st) && status != Running && (status == Blocked ==> st.current == st.idle)
    requires (status == Dying ==> st.current != st.idle)
    ensures var st0 := if status == Ready && st.current != st.idle then st.(ready := st.ready + [st.current]) else st;
            st.current in st.threads && NextThread(st0) in st.threads && Flow(Leave(st0, status))
  {
    hide Scheduled, Queued, Handover;
    CurrentIn(st);
    var threads' := st.threads[st.current := st.threads[st.current].(status := status)];
    LeaveIsHandover(st.threads, st.ready, st.current, st.idle, status);
    StatusKeepsQueued(st.threads, st.ready, st.current, st.idle, st.semas, status);
    var queue := if status == Ready && st.current != st.idle then st.ready + [st.current] else st.ready;
    var st1 := st.(threads := threads', ready := queue);
    ScheduleKeepsScheduled(st1);
    ScheduleKeepsQueued(st1, st.semas);
  }

  lemma CurrentIn(st: State)
    requires Flow(st)
    ensures st.current in st.threads && st.idle in st.threads && st.threads[st.current].status == Running
  {
  }

  /** A turn of `sema_down` keeps the queues, whether it succeeds or sleeps. */
  lemma DownKeepsFlow(st: State)
    requires Flow(st) && st.current != st.idle && st.current in st.threads
    requires st.threads[st.current].pc.Down? && st.threads[st.current].pc.s in st.semas
    ensures NextThread(st) in st.threads && Flow(DownStep(st))
  {
    hide Scheduled, Queued, Handover;
    CurrentIn(st);
    var Down(s, slept, k) := st.threads[st.current].pc;
    var x := st.semas[s];
    LeaveIsHandover(st.threads, st.ready, st.current, st.idle, Blocked);
    if x.value == 0 {
      var x' := x.(waiters := x.waiters + [st.current]);
      PcKeepsScheduled(st, Down(s, true, k));
      var st1 := PutSema(WithPc(st, Down(s, true, k)), s, x');
      LeaveIsHandover(st1.threads, st1.ready, st1.current, st1.idle, Blocked);
      SleepKeepsQueued(st.threads, st.ready, st.current, st.idle, st.semas, s, k, x');
      var st2 := st1.(threads := st.threads[st.current := Thread(Blocked, Down(s, true, k))]);
      assert st2.threads == st1.threads[st1.current := st1.threads[st1.current].(status := Blocked)];
      ScheduleKeepsScheduled(st2);
      ScheduleKeepsQueued(st2, st1.semas);
    } else {
      PcKeepsScheduled(st, AfterDown(k));
      PutKeepsQueued(WithPc(st, AfterDown(k)).threads, st.idle, st.semas, s,
          x.(value := x.value - 1, downs := x.downs + 1));
      NextIn(st);
    }
  }

  lemma NextIn(st: State)
    requires Flow(st)
    ensures NextThread(st) in st.threads
  {
  }

  lemma PcKeepsFlow(st: State, pc: Pc)
    requires Flow(st) && st.current != st.idle && st.current in st.threads
    ensures Flow(WithPc(st, pc))
  {
    PcKeepsScheduled(st, pc);
  }

  lemma PutKeepsFlow(st: State, s: SemaId, x: Sema)
    requires Flow(st) && (if s in st.semas then x.waiters == st.semas[s].waiters else x.waiters == [])
    ensures Flow(PutSema(st, s, x))
  {
    PutKeepsQueued(st.threads, st.idle, st.semas, s, x);
  }

  /** A new thread starts at the back of the ready list. */
  lemma CreateKeepsFlow(st: State)
    requires Flow(st) && st.nextTid !in st.threads
    ensures Flow(Unblock(st.(threads := st.threads[st.nextTid := Thread(Blocked, User)], nextTid := st.nextTid + 1),
            st.nextTid))
  {
    var t := st.nextTid;
    var threads' := st.threads[t := Thread(Ready, User)];
    NewKeepsScheduled(st.threads, st.ready, st.current, st.idle, t);
    assert Queued(threads', st.idle, st.semas) by {
      forall u | u in st.semas ensures WaitersOk(threads', st.idle, st.semas[u].waiters, u) {
        assert WaitersOk(st.threads, st.idle, st.semas[u].waiters, u);
      }
    }
    assert Unblock(st.(threads := st.threads[t := Thread(Blocked, User)], nextTid := t + 1), t).threads == threads';
  }

  lemma NewKeepsScheduled(threads: map<Tid, Thread>, ready: seq<Tid>, current: Tid, idle: Tid, t: Tid)
    requires Scheduled(threads, ready, current, idle) && t !in threads
    ensures Scheduled(threads[t := Thread(Ready, User)], ready + [t], current, idle)
  {
    var ready' := ready + [t];
    assert ready'[|ready|] == t;
    assert forall u :: u in ready ==> u in ready';
  }

  // Threads stay where their continuation makes sense.

  /** `PcOk` needs only that semaphores and locks exist, and none ever disappears. */
  lemma PcsGrow(t: Tid, pc: Pc, semas: map<SemaId, Sema>, semas': map<SemaId, Sema>, holders: map<nat, Option<Tid>>,
                holders': map<nat, Option<Tid>>)
    requires PcOk(t, pc, semas, holders) && semas.Keys <= semas'.Keys && holders.Keys <= holders'.Keys
    ensures PcOk(t, pc, semas', holders')
  {
    if pc.Down? {
      assert pc.s in semas'.Keys;
      match pc.s
      case OfLock(l) => assert l in holders'.Keys;
      case OfWaiter(u) => assert pc.k.l in holders'.Keys;
      case Plain(_) =>
    }
    assert pc.SetHolder? ==> pc.l in holders'.Keys;
    assert pc.Release? ==> pc.l in holders'.Keys && OfWaiter(t) in semas'.Keys;
    assert pc.UpLock? ==> pc.l in holders'.Keys && (pc.k.Sleep? ==> OfWaiter(t) in semas'.Keys);
    assert pc.UpWaiter? ==> OfWaiter(pc.t) in semas'.Keys;
  }

  /** What one step may do to the threads: the running one moves on, one may be woken, added or gone. */
  ghost predicate OnlyCurrentMoves(st: State, st': State) {
    && st.semas.Keys <= st'.semas.Keys && st.holders.Keys == st'.holders.Keys && st.nextTid <= st'.nextTid
    && (forall t :: t in st.threads && t != st.current ==> t in st'.threads)
    && (forall t :: t in st'.threads && t != st.current ==>
          if t in st.threads then st'.threads[t].pc == st.threads[t].pc
          else t == st.nextTid && st'.nextTid == t + 1 && st'.threads[t].pc == User)
    && (forall l :: l in st'.holders ==>
           st'.holders[l] == st.holders[l] || st'.holders[l] == None || st'.holders[l] == Some(st.current))
    && (st.current in st'.threads ==> PcOk(st.current, st'.threads[st.current].pc, st'.semas, st'.holders))
  }

  lemma MovesKeepPcs(st: State, st': State)
    requires Pcs(st) && st.current in st.threads && OnlyCurrentMoves(st, st')
    ensures Pcs(st')
  {
    forall t | t in st'.threads ensures t < st'.nextTid && PcOk(t, st'.threads[t].pc, st'.semas, st'.holders) {
      if t != st.current && t in st.threads {
        PcsGrow(t, st.threads[t].pc, st.semas, st'.semas, st.holders, st'.holders);
      }
    }
    forall l | l in st'.holders ensures OfLock(l) in st'.semas {
      assert l in st.holders.Keys && OfLock(l) in st.semas.Keys;
    }
  }

  lemma UpKeepsFlow(st: State, s: SemaId)
    requires Base(st) && s in st.semas
    ensures Sane(st) && Flow(SemaUp(st, s))
  {
    UpKeepsQueues(st, s);
  }

  lemma UpThenPcKeepsFlow(st: State, s: SemaId, pc: Pc)
    requires Base(st) && s in st.semas && st.current != st.idle
    ensures Sane(st) && st.current in SemaUp(st, s).threads && Flow(WithPc(SemaUp(st, s), pc))
  {
    hide Flow, Base;
    UpKeepsFlow(st, s);
    PcKeepsFlow(SemaUp(st, s), pc);
  }

  lemma GoKeepsFlow(st: State)
    requires Base(st) && st.current != st.idle
    ensures Sane(st) && Flow(Go(st))
  {
    hide Scheduled, Queued, Pcs;
    BaseIsSane(st);
    match st.threads[st.current].pc
    case User =>
    case Down(_, _, _) => DownKeepsFlow(st);
    case SetHolder(l) => PcKeepsFlow(st.(holders := st.holders[l := Some(st.current)]), User);
    case Release(c, l) => PcKeepsFlow(st.(holders := st.holders[l := None]), UpLock(l, Sleep(c, l)));
    case UpWaiter(t) => UpThenPcKeepsFlow(st, OfWaiter(t), User);
    case UpLock(l, k) =>
      UpThenPcKeepsFlow(st, OfLock(l), if k.Sleep? then Down(OfWaiter(st.current), false, Signalled(k.c, k.l))
          else User);
  }

  lemma StepKeepsFlow(st: State, e: Event)
    requires Base(st) && Enabled(st, e) && st.nextTid !in st.threads
    requires e.CallWait? ==> OfWaiter(st.current) in st.semas ==> st.semas[OfWaiter(st.current)].waiters == []
    ensures Sane(st) && Flow(Step(st, e))
  {
    hide Scheduled, Queued, Pcs;
    BaseIsSane(st);
    match e
    case Continue => GoKeepsFlow(st);
    case CallDown(n) => PcKeepsFlow(st, Down(Plain(n), false, Return));
    case CallUp(n) => UpKeepsFlow(st, Plain(n));
    case CallTryDown(n) =>
      var x := st.semas[Plain(n)];
      if x.value > 0 { PutKeepsFlow(st, Plain(n), x.(value := x.value - 1, downs := x.downs + 1)); }
    case CallAcquire(l) => PcKeepsFlow(st, Down(OfLock(l), false, Acquired(l)));
    case CallTryAcquire(l) =>
      var x := st.semas[OfLock(l)];
      if x.value > 0 {
        var x' := x.(value := x.value - 1, downs := x.downs + 1);
        PutKeepsFlow(st, OfLock(l), x');
        PcKeepsFlow(PutSema(st, OfLock(l), x'), SetHolder(l));
      }
    case CallRelease(l) => PcKeepsFlow(st.(holders := st.holders[l := None]), UpLock(l, Return));
    case CallWait(c, l) =>
      var x := Sema(0, [], 0, 0, 0);
      PutKeepsFlow(st, OfWaiter(st.current), x);
      PcKeepsFlow(PutSema(st, OfWaiter(st.current), x).(conds := st.conds[c := st.conds[c] + [st.current]]),
          Release(c, l));
    case CallSignal(c, _) =>
      var ws := st.conds[c];
      if ws != [] { PcKeepsFlow(st.(conds := st.conds[c := ws[1..]]), UpWaiter(ws[0])); }
    case Preempt => LeaveKeepsFlow(st, Ready);
    case Create => CreateKeepsFlow(st);
    case Exit => LeaveKeepsFlow(st, Dying);
    case IdleBlock => LeaveKeepsFlow(st, Blocked);
  }

  // ------------------------------------------------------- no lost wake-up

  /** A thread that has slept on the semaphore, been woken, and not yet looked at its value again. */
  predicate IsWoken(th: Thread, s: SemaId) {
    th.pc.Down? && th.pc.s == s && th.pc.slept && th.status != Blocked
  }

  ghost function Woken(threads: map<Tid, Thread>, s: SemaId): set<Tid> {
    set t | t in threads && IsWoken(threads[t], s)
  }

  /** While a thread sleeps on a semaphore, its value is at most the number of woken threads still to retry. */
  ghost predicate NoneLost(threads: map<Tid, Thread>, semas: map<SemaId, Sema>) {
    forall s :: s in semas && semas[s].waiters != [] ==> semas[s].value <= |Woken(threads, s)|
  }

  /** The value is the initial value plus the ups minus the completed downs. */
  ghost predicate Accounted(semas: map<SemaId, Sema>) {
    forall s :: s in semas ==> semas[s].value + semas[s].downs == semas[s].init + semas[s].ups
  }

  /** Nobody is woken or stops being woken if statuses other than blocked are exchanged. */
  lemma WokenSame(threads: map<Tid, Thread>, threads': map<Tid, Thread>, s: SemaId)
    requires forall t :: (t in threads && IsWoken(threads[t], s)) <==> (t in threads' && IsWoken(threads'[t], s))
    ensures Woken(threads', s) == Woken(threads, s)
  {
  }

  /** One thread changes: the woken ones change by at most that thread. */
  lemma WokenOne(threads: map<Tid, Thread>, t: Tid, th: Thread, s: SemaId)
    requires t in threads
    ensures var now := Woken(threads[t := th], s); var was := Woken(threads, s);
            |now| == |was| + (if IsWoken(th, s) then 1 else 0) - if IsWoken(threads[t], s) then 1 else 0
  {
    WokenSplit(threads, t, s);
    WokenSplit(threads[t := th], t, s);
    assert WokenBut(threads, t, s) == WokenBut(threads[t := th], t, s);
  }

  ghost function WokenBut(threads: map<Tid, Thread>, t: Tid, s: SemaId): set<Tid> {
    set u | u in threads && u != t && IsWoken(threads[u], s)
  }

  lemma WokenSplit(threads: map<Tid, Thread>, t: Tid, s: SemaId)
    requires t in threads
    ensures |Woken(threads, s)| == |WokenBut(threads, t, s)| + if IsWoken(threads[t], s) then 1 else 0
  {
    if IsWoken(threads[t], s) {
      assert Woken(threads, s) == WokenBut(threads, t, s) + {t};
    } else {
      assert Woken(threads, s) == WokenBut(threads, t, s);
    }
  }

  /** A thread that is not woken before or after may change freely. */
  lemma CalmKeepsNoneLost(threads: map<Tid, Thread>, semas: map<SemaId, Sema>, t: Tid, th: Thread)
    requires NoneLost(threads, semas) && t in threads
    requires forall s :: IsWoken(threads[t], s) <==> IsWoken(th, s)
    ensures NoneLost(threads[t := th], semas)
  {
    forall s | s in semas && semas[s].waiters != [] ensures semas[s].value <= |Woken(threads[t := th], s)| {
      WokenOne(threads, t, th, s);
    }
  }

  /** The CPU is handed over without anybody being woken or ceasing to be. */
  lemma ScheduleKeepsNoneLost(st: State, semas: map<SemaId, Sema>)
    requires Handover(st.threads, st.ready, st.current, st.idle) && NextThread(st) in st.threads
    requires st.threads[st.current].status == Dying ==> st.threads[st.current].pc == User
    requires NoneLost(st.threads, semas)
    ensures NoneLost(Schedule(st).threads, semas)
  {
    var threads' := Schedule(st).threads;
    forall s | s in semas && semas[s].waiters != [] ensures semas[s].value <= |Woken(threads', s)| {
      WokenSame(st.threads, threads', s);
    }
  }

  /** `sema_up`: the value and the woken threads grow together, or nobody sleeps. */
  lemma UpKeepsNoneLost(st: State, s: SemaId)
    requires Base(st) && NoneLost(st.threads, st.semas) && s in st.semas
    ensures Sane(st) && NoneLost(SemaUp(st, s).threads, SemaUp(st, s).semas)
  {
    BaseIsSane(st);
    var st' := SemaUp(st, s);
    if st.semas[s].waiters != [] {
      var w := st.semas[s].waiters[0];
      assert WaitersOk(st.threads, st.idle, st.semas[s].waiters, s) && Asleep(st.threads[w], s);
      forall u | u in st'.semas && st'.semas[u].waiters != [] ensures st'.semas[u].value <= |Woken(st'.threads, u)| {
        WokenOne(st.threads, w, st'.threads[w], u);
      }
    }
  }

  /** A thread that completes its `sema_down` takes one off the value, and at most itself off the woken ones. */
  lemma TakeKeepsNoneLost(threads: map<Tid, Thread>, semas: map<SemaId, Sema>, s: SemaId, t: Tid, th: Thread)
    requires NoneLost(threads, semas) && s in semas && semas[s].value > 0 && t in threads
    requires !(th.pc.Down? && th.pc.slept)
    requires forall u :: u != s ==> !IsWoken(threads[t], u)
    ensures NoneLost(threads[t := th], semas[s := semas[s].(value := semas[s].value - 1, downs := semas[s].downs + 1)])
  {
    var semas' := semas[s := semas[s].(value := semas[s].value - 1, downs := semas[s].downs + 1)];
    forall u | u in semas' && semas'[u].waiters != [] ensures semas'[u].value <= |Woken(threads[t := th], u)| {
      WokenOne(threads, t, th, u);
    }
  }

  /** A thread goes to sleep only on a semaphore whose value is zero. */
  lemma SleepKeepsNoneLost(threads: map<Tid, Thread>, semas: map<SemaId, Sema>, s: SemaId, t: Tid, th: Thread, x: Sema)
    requires NoneLost(threads, semas) && s in semas && x.value == 0 && t in threads && th.status == Blocked
    requires forall u :: u != s ==> !IsWoken(threads[t], u)
    ensures NoneLost(threads[t := th], semas[s := x])
  {
    var semas' := semas[s := x];
    forall u | u in semas' && semas'[u].waiters != [] ensures semas'[u].value <= |Woken(threads[t := th], u)| {
      WokenOne(threads, t, th, u);
    }
  }

  lemma DownKeepsNoneLost(st: State)
    requires Base(st) && NoneLost(st.threads, st.semas) && st.current != st.idle
    requires st.current in st.threads && st.threads[st.current].pc.Down?
    ensures Sane(st) && NoneLost(DownStep(st).threads, DownStep(st).semas)
  {
    hide Scheduled, Queued, Pcs, NoneLost, Handover;
    BaseIsSane(st);
    CurrentIn(st);
    var Down(s, slept, k) := st.threads[st.current].pc;
    var x := st.semas[s];
    if x.value == 0 {
      var st0 := WithPc(st, Down(s, true, k));
      var th := Thread(Blocked, Down(s, true, k));
      PcKeepsScheduled(st, Down(s, true, k));
      LeaveIsHandover(st0.threads, st.ready, st.current, st.idle, Blocked);
      SleepKeepsNoneLost(st.threads, st.semas, s, st.current, th, x.(waiters := x.waiters + [st.current]));
      assert st0.threads[st.current := th] == st.threads[st.current := th];
      var st1 := PutSema(st.(threads := st.threads[st.current := th]), s, x.(waiters := x.waiters + [st.current]));
      ScheduleKeepsNoneLost(st1, st1.semas);
    } else {
      TakeKeepsNoneLost(st.threads, st.semas, s, st.current, st.threads[st.current].(pc := AfterDown(k)));
    }
  }
}
