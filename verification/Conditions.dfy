/**
 Condition variables (threads/synch.c) over every run of the transition system of module
 Threads: each thread in `cond_wait` is queued on its condition, or popped by exactly one
 signaller, or signalled; never two of these and never none.
 */
module Conditions {
  import opened Common = Base
  import opened Threads
  import opened Synch

  /** The condition a thread is waiting on: it has called `cond_wait` and not yet got past its own semaphore. */
  function WaitCond(pc: Pc): (c: Option<nat>) {
    match pc
    case Release(c, _) => Some(c)
    case UpLock(_, k) => if k.Sleep? then Some(k.c) else None
    case Down(s, _, k) => if k.Signalled? then Some(k.c) else None
    case _ => None
  }

  /** The waiter a signalling thread has taken off a condition and not yet woken. */
  function Target(pc: Pc): (t: Option<Tid>) {
    if pc.UpWaiter? then Some(pc.t) else None
  }

  ghost function Waits(threads: map<Tid, Thread>, t: Tid): Option<nat> { WaitCond(PcOf(threads, t)) }

  ghost function Pops(threads: map<Tid, Thread>, u: Tid): Option<Tid> { Target(PcOf(threads, u)) }

  function Posts(semas: map<SemaId, Sema>, t: Tid): nat {
    if OfWaiter(t) in semas then semas[OfWaiter(t)].value else 0
  }

  /** The queue of condition `c`: distinct waiters of `c`, none of them popped or signalled. */
  ghost predicate QueueOk(threads: map<Tid, Thread>, semas: map<SemaId, Sema>, c: nat, q: seq<Tid>) {
    && Distinct(q)
    && forall i :: 0 <= i < |q| ==>
           Waits(threads, q[i]) == Some(c) && OfWaiter(q[i]) in semas && Posts(semas, q[i]) == 0
  }

  /** A popped waiter has one popper only, is queued no longer, and is not signalled yet. */
  ghost predicate PoppedOk(threads: map<Tid, Thread>, semas: map<SemaId, Sema>, conds: map<nat, seq<Tid>>) {
    forall u: Tid :: Pops(threads, u).Some? ==>
      var t := Pops(threads, u).value;
      && Waits(threads, t).Some? && Posts(semas, t) == 0
      && (Waits(threads, t).value in conds ==> t !in conds[Waits(threads, t).value])
      && forall v: Tid :: Pops(threads, v) == Some(t) ==> v == u
  }

  ghost predicate IsPopped(threads: map<Tid, Thread>, t: Tid) {
    exists u: Tid :: Pops(threads, u) == Some(t)
  }

  /** Nobody waits unseen: a waiter is queued, popped or signalled once. */
  ghost predicate SeenOk(threads: map<Tid, Thread>, semas: map<SemaId, Sema>, conds: map<nat, seq<Tid>>) {
    forall t: Tid :: Waits(threads, t).Some? ==>
      && Waits(threads, t).value in conds
      && Posts(semas, t) <= 1
      && (t in conds[Waits(threads, t).value] || IsPopped(threads, t) || Posts(semas, t) == 1)
  }

  ghost predicate CondsOk(threads: map<Tid, Thread>, semas: map<SemaId, Sema>, conds: map<nat, seq<Tid>>) {
    && (forall c :: c in conds ==> QueueOk(threads, semas, c, conds[c]))
    && PoppedOk(threads, semas, conds)
    && SeenOk(threads, semas, conds)
  }

  /** All that matters here about the threads other than `except`. */
  ghost predicate SameRoles(threads: map<Tid, Thread>, threads': map<Tid, Thread>, except: Tid) {
    forall t: Tid :: t != except ==> Waits(threads', t) == Waits(threads, t) && Pops(threads', t) == Pops(threads, t)
  }

  ghost predicate SamePosts(semas: map<SemaId, Sema>, semas': map<SemaId, Sema>, except: Tid) {
    semas.Keys <= semas'.Keys && forall t: Tid :: t != except ==> Posts(semas', t) == Posts(semas, t)
  }

  lemma CalmKeepsConds(threads: map<Tid, Thread>, threads': map<Tid, Thread>, semas: map<SemaId, Sema>,
                       semas': map<SemaId, Sema>,
                       conds: map<nat, seq<Tid>>, t: Tid)
    requires CondsOk(threads, semas, conds) && SameRoles(threads, threads', t) && SamePosts(semas, semas', t)
    requires Waits(threads', t) == Waits(threads, t) && Pops(threads', t) == Pops(threads, t)
    requires Posts(semas', t) == Posts(semas, t)
    ensures CondsOk(threads', semas', conds)
  {
    forall c | c in conds ensures QueueOk(threads', semas', c, conds[c]) {
      QueueStays(threads, threads', semas, semas', c, conds[c]);
    }
    forall u: Tid | Waits(threads', u).Some?
      ensures IsPopped(threads, u) ==> IsPopped(threads', u)
    {
      if IsPopped(threads, u) {
        var v: Tid :| Pops(threads, v) == Some(u);
        assert Pops(threads', v) == Some(u);
      }
    }
  }

  /** A queue keeps its shape if its members keep theirs. */
  lemma QueueStays(threads: map<Tid, Thread>, threads': map<Tid, Thread>, semas: map<SemaId, Sema>,
                   semas': map<SemaId, Sema>, c: nat, q: seq<Tid>)
    requires QueueOk(threads, semas, c, q) && semas.Keys <= semas'.Keys
    requires forall t :: t in q ==> Waits(threads', t) == Waits(threads, t) && Posts(semas', t) == Posts(semas, t)
    ensures QueueOk(threads', semas', c, q)
  {
    forall i | 0 <= i < |q|
      ensures Waits(threads', q[i]) == Some(c) && OfWaiter(q[i]) in semas' && Posts(semas', q[i]) == 0 {
      assert q[i] in q && OfWaiter(q[i]) in semas.Keys;
    }
  }

  lemma PoppedStays(threads: map<Tid, Thread>, threads': map<Tid, Thread>, t: Tid, u: Tid)
    requires SameRoles(threads, threads', t) && Pops(threads, t) != Some(u) && IsPopped(threads, u)
    ensures IsPopped(threads', u)
  {
    var v: Tid :| Pops(threads, v) == Some(u);
    assert Pops(threads', v) == Some(u);
  }

  /** `cond_wait` queues the caller. */
  lemma EnterKeepsConds(threads: map<Tid, Thread>, threads': map<Tid, Thread>, semas: map<SemaId, Sema>,
                        semas': map<SemaId, Sema>,
                        conds: map<nat, seq<Tid>>, t: Tid, c: nat)
    requires CondsOk(threads, semas, conds) && SameRoles(threads, threads', t) && SamePosts(semas, semas', t)
    requires Waits(threads, t) == None && Pops(threads, t) == None && c in conds
    requires Waits(threads', t) == Some(c) && Pops(threads', t) == None && OfWaiter(t) in semas'
    requires Posts(semas', t) == 0
    ensures CondsOk(threads', semas', conds[c := conds[c] + [t]])
  {
    var conds' := conds[c := conds[c] + [t]];
    forall d | d in conds' ensures QueueOk(threads', semas', d, conds'[d]) {
      assert QueueOk(threads, semas, d, conds[d]);
      QueueStays(threads, threads', semas, semas', d, conds[d]);
    }
    forall u: Tid | Waits(threads', u).Some?
      ensures var d := Waits(threads', u).value;
              d in conds' && Posts(semas', u) <= 1 && (u in conds'[d] || IsPopped(threads', u) || Posts(semas', u) == 1)
    {
      if u != t {
        if IsPopped(threads, u) { PoppedStays(threads, threads', t, u); }
      } else {
        assert conds'[c][|conds[c]|] == t;
      }
    }
    forall u: Tid | Pops(threads', u).Some?
      ensures var w := Pops(threads', u).value;
              Waits(threads', w).Some?
                  && (Waits(threads', w).value in conds' ==> w !in conds'[Waits(threads', w).value])
    {
      assert u != t && Pops(threads, u) == Pops(threads', u);
    }
  }

  /** `cond_signal` takes the longest waiter off its condition. */
  lemma PopKeepsConds(threads: map<Tid, Thread>, threads': map<Tid, Thread>, semas: map<SemaId, Sema>,
                      semas': map<SemaId, Sema>,
                      conds: map<nat, seq<Tid>>, t: Tid, c: nat)
    requires CondsOk(threads, semas, conds) && SameRoles(threads, threads', t) && SamePosts(semas, semas', t)
    requires c in conds && conds[c] != []
    requires Waits(threads, t) == None && Pops(threads, t) == None && Posts(semas', t) == Posts(semas, t)
    requires Waits(threads', t) == None && Pops(threads', t) == Some(conds[c][0])
    ensures CondsOk(threads', semas', conds[c := conds[c][1..]])
  {
    var q := conds[c];
    var conds' := conds[c := q[1..]];
    assert QueueOk(threads, semas, c, q);
    forall d | d in conds' ensures QueueOk(threads', semas', d, conds'[d]) {
      assert QueueOk(threads, semas, d, conds[d]);
      QueueStays(threads, threads', semas, semas', d, conds[d]);
    }
    assert IsPopped(threads', q[0]);
    forall u: Tid | Waits(threads', u).Some?
      ensures var d := Waits(threads', u).value;
              d in conds' && Posts(semas', u) <= 1 && (u in conds'[d] || IsPopped(threads', u) || Posts(semas', u) == 1)
    {
      if IsPopped(threads, u) { PoppedStays(threads, threads', t, u); }
    }
    forall u: Tid | Pops(threads', u).Some?
      ensures var w := Pops(threads', u).value;
              && Waits(threads', w).Some? && Posts(semas', w) == 0
              && (Waits(threads', w).value in conds' ==> w !in conds'[Waits(threads', w).value])
              && forall v: Tid :: Pops(threads', v) == Some(w) ==> v == u
    {
    }
  }

  /** `cond_signal` ups the semaphore of the waiter it has popped. */
  lemma PostKeepsConds(threads: map<Tid, Thread>, threads': map<Tid, Thread>, semas: map<SemaId, Sema>,
                       semas': map<SemaId, Sema>,
                       conds: map<nat, seq<Tid>>, t: Tid, w: Tid)
    requires CondsOk(threads, semas, conds) && SameRoles(threads, threads', t) && SamePosts(semas, semas', w)
    requires Waits(threads, t) == None && Pops(threads, t) == Some(w)
    requires Waits(threads', t) == None && Pops(threads', t) == None && Posts(semas', w) == Posts(semas, w) + 1
    ensures CondsOk(threads', semas', conds)
  {
    forall c | c in conds ensures QueueOk(threads', semas', c, conds[c]) {
      assert QueueOk(threads, semas, c, conds[c]);
      QueueStays(threads, threads', semas, semas', c, conds[c]);
    }
    forall u: Tid | Waits(threads', u).Some?
      ensures var d := Waits(threads', u).value;
              d in conds && Posts(semas', u) <= 1 && (u in conds[d] || IsPopped(threads', u) || Posts(semas', u) == 1)
    {
      if u != w && IsPopped(threads, u) { PoppedStays(threads, threads', t, u); }
    }
    forall u: Tid | Pops(threads', u).Some?
      ensures var x := Pops(threads', u).value; Posts(semas', x) == 0
    {
      assert u != t && Pops(threads, u) == Pops(threads', u) && Pops(threads, u) != Some(w);
    }
  }

  /** A signalled waiter gets past its semaphore and stops being a waiter. */
  lemma PassKeepsConds(threads: map<Tid, Thread>, threads': map<Tid, Thread>, semas: map<SemaId, Sema>,
                       semas': map<SemaId, Sema>,
                       conds: map<nat, seq<Tid>>, t: Tid)
    requires CondsOk(threads, semas, conds) && SameRoles(threads, threads', t) && SamePosts(semas, semas', t)
    requires Waits(threads, t).Some? && Pops(threads, t) == None && Posts(semas, t) > 0
    requires Waits(threads', t) == None && Pops(threads', t) == None
    ensures CondsOk(threads', semas', conds)
  {
    forall c | c in conds ensures QueueOk(threads', semas', c, conds[c]) {
      assert QueueOk(threads, semas, c, conds[c]);
      QueueStays(threads, threads', semas, semas', c, conds[c]);
    }
    forall u: Tid | Waits(threads', u).Some?
      ensures var d := Waits(threads', u).value;
              d in conds && Posts(semas', u) <= 1 && (u in conds[d] || IsPopped(threads', u) || Posts(semas', u) == 1)
    {
      if IsPopped(threads, u) { PoppedStays(threads, threads', t, u); }
    }
  }

  // ------------------------------------------------------------- step by step

  ghost predicate Conds(st: State) { CondsOk(st.threads, st.semas, st.conds) }

  /** The front waiter of a condition has a semaphore to be woken on. */
  lemma FrontHasSema(st: State, c: nat)
    requires Conds(st) && c in st.conds && st.conds[c] != []
    ensures OfWaiter(st.conds[c][0]) in st.semas
  {
    assert QueueOk(st.threads, st.semas, c, st.conds[c]);
  }

  lemma OthersAreRoles(threads: map<Tid, Thread>, threads': map<Tid, Thread>, t: Tid)
    requires Others(threads, threads', t)
    ensures SameRoles(threads, threads', t)
  {
  }

  /** Semaphores other than a waiter's do not matter. */
  lemma PutIsSamePosts(semas: map<SemaId, Sema>, s: SemaId, x: Sema, t: Tid)
    requires s in semas && (s.OfWaiter? ==> s.t == t || semas[s].value == x.value)
    ensures SamePosts(semas, semas[s := x], t)
  {
    assert semas[s := x].Keys == semas.Keys;
  }

  /** A step that leaves the conditions alone and the running thread in its role. */
  lemma CalmStep(st: State, st': State)
    requires Conds(st) && Others(st.threads, st'.threads, st.current) && SamePosts(st.semas, st'.semas, st.current)
    requires st'.conds == st.conds
    requires Waits(st'.threads, st.current) == Waits(st.threads, st.current)
    requires Pops(st'.threads, st.current) == Pops(st.threads, st.current)
    requires Posts(st'.semas, st.current) == Posts(st.semas, st.current)
    ensures Conds(st')
  {
    hide CondsOk, SameRoles, Others;
    OthersAreRoles(st.threads, st'.threads, st.current);
    CalmKeepsConds(st.threads, st'.threads, st.semas, st'.semas, st.conds, st.current);
  }

  /** `sema_up` on a semaphore that is no waiter's. */
  lemma UpKeepsConds(st: State, s: SemaId, pc: Pc)
    requires Sane(st) && Conds(st) && s in st.semas && !s.OfWaiter? && st.current in SemaUp(st, s).threads
    requires WaitCond(pc) == Waits(st.threads, st.current) && Target(pc) == Pops(st.threads, st.current)
    requires Others(st.threads, WithPc(SemaUp(st, s), pc).threads, st.current)
    ensures Conds(WithPc(SemaUp(st, s), pc))
  {
    hide CondsOk, SameRoles, Others, SamePosts;
    var st' := WithPc(SemaUp(st, s), pc);
    PutIsSamePosts(st.semas, s, st'.semas[s], st.current);
    assert st'.semas == st.semas[s := st'.semas[s]];
    CalmStep(st, st');
  }

  lemma DownKeepsConds(st: State)
    requires Base(st) && Conds(st) && st.current != st.idle && st.current in st.threads
    requires st.threads[st.current].pc.Down?
    ensures Sane(st) && Conds(DownStep(st))
  {
    hide Scheduled, Queued, Pcs, CondsOk, SameRoles, Others, SamePosts, OnlyCurrentMoves;
    BaseIsSane(st);
    CurrentPc(st);
    DownMoves(st);
    var st' := DownStep(st);
    MovesAreOthers(st, st');
    DownGoesTo(st);
    var Down(s, slept, k) := st.threads[st.current].pc;
    PutIsSamePosts(st.semas, s, st'.semas[s], st.current);
    assert st'.semas == st.semas[s := st'.semas[s]];
    if st.semas[s].value == 0 || !s.OfWaiter? {
      CalmStep(st, st');
    } else {
      OthersAreRoles(st.threads, st'.threads, st.current);
      PassKeepsConds(st.threads, st'.threads, st.semas, st'.semas, st.conds, st.current);
    }
  }

  /** Where a turn of `sema_down` leaves the thread. */
  lemma DownGoesTo(st: State)
    requires Base(st) && st.current != st.idle && st.current in st.threads && st.threads[st.current].pc.Down?
    ensures Sane(st)
    ensures var Down(s, slept, k) := st.threads[st.current].pc; var st' := DownStep(st);
            && PcOf(st'.threads, st.current) == (if st.semas[s].value == 0 then Down(s, true, k) else AfterDown(k))
            && s in st'.semas && st'.semas[s].value == (if st.semas[s].value == 0 then 0 else st.semas[s].value - 1)
            && st'.semas == st.semas[s := st'.semas[s]] && st'.conds == st.conds && st'.holders == st.holders
  {
    hide Scheduled, Queued, Pcs, Handover;
    BaseIsSane(st);
    var Down(s, slept, k) := st.threads[st.current].pc;
    var x := st.semas[s];
    if x.value == 0 {
      var st1 := PutSema(WithPc(st, Down(s, true, k)), s, x.(waiters := x.waiters + [st.current]));
      PcKeepsScheduled(st, Down(s, true, k));
      LeaveIsHandover(st1.threads, st1.ready, st1.current, st1.idle, Blocked);
      ScheduleKeepsPcs(st1.(threads := st1.threads[st1.current := st1.threads[st1.current].(status := Blocked)]));
    }
  }

  lemma GoKeepsConds(st: State)
    requires Base(st) && Conds(st) && st.current != st.idle
    ensures Sane(st) && Conds(Go(st))
  {
    hide Scheduled, Queued, Pcs, CondsOk, SameRoles, Others, SamePosts, OnlyCurrentMoves;
    BaseIsSane(st);
    GoMoves(st);
    var st' := Go(st);
    MovesAreOthers(st, st');
    CurrentPc(st);
    SelfPosts(st.semas, st.current);
    match st.threads[st.current].pc
    case User =>
    case Down(_, _, _) => DownKeepsConds(st);
    case SetHolder(l) => CalmStep(st, st');
    case Release(c, l) => CalmStep(st, st');
    case UpWaiter(w) => UpWaiterKeepsConds(st, w);
    case UpLock(l, k) =>
      UpKeepsConds(st, OfLock(l), if k.Sleep? then Down(OfWaiter(st.current), false, Signalled(k.c, k.l)) else User);
  }

  lemma SelfPosts(semas: map<SemaId, Sema>, t: Tid)
    ensures SamePosts(semas, semas, t)
  {
  }

  lemma UpWaiterKeepsConds(st: State, w: Tid)
    requires Sane(st) && Conds(st) && OfWaiter(w) in st.semas && st.threads[st.current].pc == UpWaiter(w)
    requires Others(st.threads, Go(st).threads, st.current)
    ensures Conds(Go(st))
  {
    hide CondsOk, SameRoles, Others, SamePosts;
    var st' := Go(st);
    OthersAreRoles(st.threads, st'.threads, st.current);
    PutIsSamePosts(st.semas, OfWaiter(w), st'.semas[OfWaiter(w)], w);
    assert st'.semas == st.semas[OfWaiter(w) := st'.semas[OfWaiter(w)]];
    PostKeepsConds(st.threads, st'.threads, st.semas, st'.semas, st.conds, st.current, w);
  }

  lemma WaitKeepsConds(st: State, c: nat, l: nat)
    requires Sane(st) && Conds(st) && Enabled(st, CallWait(c, l))
    requires Others(st.threads, Step(st, CallWait(c, l)).threads, st.current)
    ensures Conds(Step(st, CallWait(c, l)))
  {
    hide CondsOk, SameRoles, Others;
    var st' := Step(st, CallWait(c, l));
    OthersAreRoles(st.threads, st'.threads, st.current);
    EnterKeepsConds(st.threads, st'.threads, st.semas, st'.semas, st.conds, st.current, c);
  }

  lemma SignalKeepsConds(st: State, c: nat, l: nat)
    requires Sane(st) && Conds(st) && Enabled(st, CallSignal(c, l))
    requires Others(st.threads, Step(st, CallSignal(c, l)).threads, st.current)
    ensures Conds(Step(st, CallSignal(c, l)))
  {
    hide CondsOk, SameRoles, Others, SamePosts;
    var st' := Step(st, CallSignal(c, l));
    OthersAreRoles(st.threads, st'.threads, st.current);
    SelfPosts(st.semas, st.current);
    if st.conds[c] != [] {
      PopKeepsConds(st.threads, st'.threads, st.semas, st'.semas, st.conds, st.current, c);
    }
  }

  lemma LeaveKeepsConds(st: State, status: Status)
    requires Base(st) && Conds(st) && status != Running
    requires (status == Dying ==> st.current != st.idle && PcOf(st.threads, st.current) == User)
    ensures var st0 := if status == Ready && st.current != st.idle then st.(ready := st.ready + [st.current]) else st;
            st.current in st.threads && NextThread(st0) in st.threads && Conds(Leave(st0, status))
  {
    hide Base, CondsOk, Others, SamePosts, OnlyCurrentMoves;
    LeaveStays(st, status);
    LeaveMoves(st, status);
    var st0 := if status == Ready && st.current != st.idle then st.(ready := st.ready + [st.current]) else st;
    MovesAreOthers(st, Leave(st0, status));
    SelfPosts(st.semas, st.current);
    CalmStep(st, Leave(st0, status));
  }

  /** Every step keeps the conditions. */
  lemma StepKeepsConds(st: State, e: Event)
    requires Base(st) && Conds(st) && Enabled(st, e)
    ensures Sane(st) && Conds(Step(st, e))
  {
    hide Base, CondsOk, SameRoles, Others, SamePosts, OnlyCurrentMoves;
    BaseIsSane(st);
    if e.CallSignal? && st.conds[e.c] != [] { FrontHasSema(st, e.c); }
    StepMoves(st, e);
    MovesAreOthers(st, Step(st, e));
    SelfPosts(st.semas, st.current);
    match e
    case Continue => GoKeepsConds(st);
    case CallUp(n) =>
      UpKeepsCurrent(st, Plain(n));
      UpKeepsConds(st, Plain(n), st.threads[st.current].pc);
    case Preempt => LeaveKeepsConds(st, Ready);
    case Exit => LeaveKeepsConds(st, Dying);
    case IdleBlock => LeaveKeepsConds(st, Blocked);
    case CallDown(n) => CalmStep(st, Step(st, e));
    case CallTryDown(n) => TakeKeepsConds(st, Plain(n), st.threads[st.current].pc, Step(st, e));
    case CallAcquire(l) => CalmStep(st, Step(st, e));
    case CallTryAcquire(l) => TakeKeepsConds(st, OfLock(l), SetHolder(l), Step(st, e));
    case CallRelease(l) => CalmStep(st, Step(st, e));
    case CallWait(c, l) => WaitKeepsConds(st, c, l);
    case CallSignal(c, l) => SignalKeepsConds(st, c, l);
    case Create => FreshTid(st); CalmStep(st, Step(st, e));
  }

  /** `sema_try_down` on a semaphore that is no waiter's. */
  lemma TakeKeepsConds(st: State, s: SemaId, pc: Pc, st': State)
    requires Conds(st) && st.current in st.threads && s in st.semas && !s.OfWaiter?
    requires Others(st.threads, st'.threads, st.current) && st'.conds == st.conds && s in st'.semas
    requires st'.semas == st.semas[s := st'.semas[s]]
    requires PcOf(st'.threads, st.current) == pc || PcOf(st'.threads, st.current) == st.threads[st.current].pc
    requires WaitCond(pc) == Waits(st.threads, st.current) && Target(pc) == Pops(st.threads, st.current)
    ensures Conds(st')
  {
    hide CondsOk, Others, SamePosts;
    PutIsSamePosts(st.semas, s, st'.semas[s], st.current);
    CalmStep(st, st');
  }
}
