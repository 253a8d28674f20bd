/**
 What eviction does to the bytes of a mapped file page, and runs of accesses in which paging is not
 transparent or the kernel comes to grief.
 */
module MappedPages {
  import opened Base
  import opened FrameTable
  import opened Paging
  import Swap

  // ------------------------------------------------- a mapped page and its way back

  /** An eviction that takes page `k` away is the eviction of `k`'s frame. */
  lemma EvictionOf(vm: Vm, origin: SupTable, slots: Swap.Slots, mem: Mem, k: PageKey, ok: Allocs)
    requires Inv(vm, origin, slots, mem, {}) && k in vm.pd && vm.pd[k].dirty && k in origin && origin[k].FilePage?
    requires GetPage(vm, ok).Done? && k !in GetPage(vm, ok).vm.pd
    ensures vm.pd[k].kpage < |vm.ram| && Fits(origin[k], vm.files)
    ensures var vm1 := GetPage(vm, ok).vm;
            && vm1.files == WriteBack(vm.files, vm.denied, origin[k], vm.ram[vm.pd[k].kpage], ok.write)
            && k in vm1.sup && vm1.sup[k] == origin[k]
  {
    hide Shape, Tables, Kept, Layout, Swap.Refines, WriteBack, Replace;
    ResidentOf(vm, origin, slots, mem, {}, k);
    EntryOf(vm, origin, slots, mem, {}, k);
    if |vm.frames| > 0 && FirstFree(vm.used) == |vm.used| {
      var vm0, v := ScanFinds(vm, ok);
      assert vm0.pd[k] == vm.pd[k].(accessed := vm0.pd[k].accessed);
    } else {
      NoFrames(vm, ok);
    }
  }

  lemma NoFrames(vm: Vm, ok: Allocs)
    ensures |vm.frames| == 0 ==> Replace(vm, ok) == Panic
  {
  }

  lemma EntryOf(vm: Vm, origin: SupTable, slots: Swap.Slots, mem: Mem, spare: set<nat>, k: PageKey)
    requires Inv(vm, origin, slots, mem, spare) && k in origin && origin[k].FilePage?
    ensures k in vm.sup && vm.sup[k] == origin[k]
  {
    hide Shape, Kept, Layout, Swap.Refines;
    assert EntryOk(vm.sup[k], vm.pd, origin, slots, k);
  }

  /** Filling a frame writes to no file, unmaps no page and maps one page at most. */
  lemma FillFrame(vm: Vm, j: PageKey, kp: nat, e: Option<SupPage>, ok: Allocs)
    requires kp < |vm.ram|
    ensures var r := Fill(vm, j, kp, e, ok);
            r.Done? ==> && r.vm.files == vm.files && r.vm.denied == vm.denied
                        && vm.pd.Keys <= r.vm.pd.Keys <= vm.pd.Keys + {j}
  {
  }

  /** A fault on page `j` that evicts the dirty mapped page `k` leaves in `k`'s file what was written back. */
  lemma FaultEvicts(vm: Vm, origin: SupTable, slots: Swap.Slots, mem: Mem, k: PageKey, j: PageKey, stack: bool,
                    ok: Allocs)
    requires Inv(vm, origin, slots, mem, {}) && k in vm.pd && vm.pd[k].dirty && k in origin && origin[k].FilePage?
    requires j !in vm.pd && PageFault(vm, j, stack, ok).Done? && k !in PageFault(vm, j, stack, ok).vm.pd
    ensures vm.pd[k].kpage < |vm.ram| && Fits(origin[k], vm.files)
    ensures PageFault(vm, j, stack, ok).vm.files
            == WriteBack(vm.files, vm.denied, origin[k], vm.ram[vm.pd[k].kpage], ok.write)
  {
    hide Inv, Fill, GetPage, WriteBack;
    if GetPage(vm, ok).Done? {
      var Done(vm1, kp) := GetPage(vm, ok);
      if kp < |vm1.ram| { FillFrame(vm1, j, kp, if j in vm.sup then Some(vm.sup[j]) else None, ok); }
      EvictionOf(vm, origin, slots, mem, k, ok);
    }
  }

  /** Whatever is evicted to make room, an absent mapped page loads the same bytes. */
  lemma GetPageKeepsBacking(vm: Vm, origin: SupTable, slots: Swap.Slots, mem: Mem, k: PageKey, ok: Allocs)
    requires Inv(vm, origin, slots, mem, {}) && k in origin && k !in vm.pd && Fits(origin[k], vm.files)
    requires GetPage(vm, ok).Done?
    ensures var files' := GetPage(vm, ok).vm.files;
            Fits(origin[k], files') && Backing(origin[k], files') == Backing(origin[k], vm.files)
  {
    hide Shape, Kept, Tables, Layout, Swap.Refines, WriteBack, Replace, Backing, Fits;
    if |vm.frames| > 0 && FirstFree(vm.used) == |vm.used| {
      var vm0, v := ScanFinds(vm, ok);
      var u := vm.frames[v].key;
      if u in vm.sup && vm.sup[u].FilePage? {
        MappedIsOrigin(vm, origin, slots, mem, u);
        if Fits(origin[u], vm.files) {
          WriteBackElsewhere(origin, vm.files, vm.denied, u, k, vm.ram[vm.frames[v].kpage], ok.write);
        }
      }
    } else {
      NoFrames(vm, ok);
    }
  }

  lemma MappedIsOrigin(vm: Vm, origin: SupTable, slots: Swap.Slots, mem: Mem, u: PageKey)
    requires Inv(vm, origin, slots, mem, {}) && u in vm.sup && vm.sup[u].FilePage?
    ensures u in origin && vm.sup[u] == origin[u]
  {
    hide Shape, Kept, Layout, Swap.Refines;
    assert EntryOk(vm.sup[u], vm.pd, origin, slots, u);
  }

  /** A fault on an absent mapped page that makes it present loads what its file holds. */
  lemma FaultLoads(vm: Vm, origin: SupTable, slots: Swap.Slots, mem: Mem, k: PageKey, stack: bool, ok: Allocs)
    requires Inv(vm, origin, slots, mem, {}) && k in origin && origin[k].FilePage?
    requires k !in vm.pd && Fits(origin[k], vm.files)
    requires PageFault(vm, k, stack, ok).Done? && PageFault(vm, k, stack, ok).value == Present
    ensures var vm' := PageFault(vm, k, stack, ok).vm;
            k in vm'.pd && vm'.pd[k].kpage < |vm'.ram| && vm'.ram[vm'.pd[k].kpage] == Backing(origin[k], vm.files)
  {
    hide Inv, GetPage, Backing, Fits;
    EntryOf(vm, origin, slots, mem, {}, k);
    if GetPage(vm, ok).Done? { GetPageKeepsBacking(vm, origin, slots, mem, k, ok); }
  }

  /** The byte of a resident page. */
  function ByteAt(vm: Vm, k: PageKey, i: nat): byte
    requires k in vm.pd && vm.pd[k].kpage < |vm.ram| && i < PGSIZE
  {
    vm.ram[vm.pd[k].kpage][i]
  }

  /** An access that evicts page `k` leaves its file as the eviction wrote it. */
  lemma AccessEvicts(vm: Vm, origin: SupTable, slots: Swap.Slots, mem: Mem, k: PageKey, a: Access)
    requires Inv(vm, origin, slots, mem, {}) && k in vm.pd && vm.pd[k].dirty && k in origin && origin[k].FilePage?
    requires a.Key() !in vm.pd && Do(vm, a).Done? && k !in Do(vm, a).vm.pd
    ensures vm.pd[k].kpage < |vm.ram| && Fits(origin[k], vm.files)
    ensures Do(vm, a).vm.files == WriteBack(vm.files, vm.denied, origin[k], vm.ram[vm.pd[k].kpage], a.ok.write)
  {
    hide Inv, PageFault, WriteBack;
    FaultEvicts(vm, origin, slots, mem, k, a.Key(), IsStackAccess(a.va, a.esp), a.ok);
  }

  /** A load that brings an absent mapped page in replies with the byte its file holds. */
  lemma LoadReplies(vm: Vm, origin: SupTable, slots: Swap.Slots, mem: Mem, k: PageKey, b: Access)
    requires Inv(vm, origin, slots, mem, {}) && k in origin && origin[k].FilePage?
    requires k !in vm.pd && Fits(origin[k], vm.files)
    requires b.Load? && b.Key() == k && Do(vm, b).Done? && Do(vm, b).value.Byte?
    ensures Do(vm, b).value.b == Backing(origin[k], vm.files)[b.Ofs()]
  {
    hide Inv, PageFault, Backing, Fits;
    var t := PageFault(vm, k, IsStackAccess(b.va, b.esp), b.ok);
    if t.Done? && t.value == Present { FaultLoads(vm, origin, slots, mem, k, IsStackAccess(b.va, b.esp), b.ok); }
  }

  /** The page is away, and its file holds for it what it held in the first state. */
  ghost predicate Away(vm: Vm, origin: SupTable, k: PageKey, files: seq<File>)
    requires k in origin && Fits(origin[k], files)
  {
    k !in vm.pd && Fits(origin[k], vm.files) && Backing(origin[k], vm.files) == Backing(origin[k], files)
  }

  /** An access to another page leaves an absent page away, and what its file holds for it. */
  lemma StaysAway(vm: Vm, origin: SupTable, slots: Swap.Slots, mem: Mem, k: PageKey, c: Access)
    requires Inv(vm, origin, slots, mem, {}) && k in origin && k !in vm.pd && Fits(origin[k], vm.files)
    requires c.Key() != k && Do(vm, c).Done?
    ensures Away(Do(vm, c).vm, origin, k, vm.files)
  {
    hide Inv, Fill, GetPage, Backing, Fits;
    var j, stack := c.Key(), IsStackAccess(c.va, c.esp);
    if j !in vm.pd && (j in vm.sup || stack) && GetPage(vm, c.ok).Done? {
      var Done(vm1, kp) := GetPage(vm, c.ok);
      GetPageKeepsBacking(vm, origin, slots, mem, k, c.ok);
      AwayAfterGetPage(vm, origin, slots, mem, k, c.ok);
      if kp < |vm1.ram| { FillFrame(vm1, j, kp, if j in vm.sup then Some(vm.sup[j]) else None, c.ok); }
    }
  }

  lemma AwayAfterGetPage(vm: Vm, origin: SupTable, slots: Swap.Slots, mem: Mem, k: PageKey, ok: Allocs)
    requires Inv(vm, origin, slots, mem, {}) && k !in vm.pd && GetPage(vm, ok).Done?
    ensures k !in GetPage(vm, ok).vm.pd
  {
    hide Shape, Kept, Tables, Layout, Swap.Refines, GetPage;
    GetPageFrame(vm, k, ok);
  }

  /** The same over a run of accesses to other pages. */
  lemma {:induction false} RunStaysAway(vm: Vm, origin: SupTable, mem: Mem, k: PageKey, cs: seq<Access>)
    requires Good(vm, origin, mem) && k in origin && k !in vm.pd && Fits(origin[k], vm.files)
    requires Run(vm, cs).Done? && forall c :: c in cs ==> c.Key() != k
    ensures Away(Run(vm, cs).vm, origin, k, vm.files)
    decreases |cs|
  {
    hide Inv, Do, Backing, Fits, ObserveAll, ReplyOk;
    if cs != [] {
      var n := |cs| - 1;
      RunStaysAway(vm, origin, mem, k, cs[..n]);
      RunIsTransparent(vm, origin, mem, cs[..n]);
      var Done(vm1, replies) := Run(vm, cs[..n]);
      var slots :| Inv(vm1, origin, slots, ObserveAll(mem, origin, vm.denied, cs[..n], replies), {});
      StaysAway(vm1, origin, slots, ObserveAll(mem, origin, vm.denied, cs[..n], replies), k, cs[n]);
    }
  }

  /** The state once page `k` has been evicted by `a` and other pages have been accessed. */
  ghost predicate Evicted(vm: Vm, k: PageKey, a: Access, cs: seq<Access>) {
    && a.Key() !in vm.pd && Do(vm, a).Done? && k !in Do(vm, a).vm.pd
    && Run(Do(vm, a).vm, cs).Done? && (forall c :: c in cs ==> c.Key() != k)
  }

  /**
   A byte of a dirty mapped page survives the access to another page that evicts it, and is what the next load of it
   returns, if and only if the write-back sends it and the file does not deny writes, or it was equal to its backing
   byte.  With a bounce buffer the bytes before `zero_after` are sent, without one the whole sectors among them.
   */
  lemma SurvivesEvictionIff(vm: Vm, origin: SupTable, slots: Swap.Slots, mem: Mem, k: PageKey, a: Access,
                            cs: seq<Access>, b: Access)
    requires Inv(vm, origin, slots, mem, {}) && k in vm.pd && vm.pd[k].dirty && k in origin && origin[k].FilePage?
    requires Evicted(vm, k, a, cs) && b.Load? && b.Key() == k
    requires var r := Do(Run(Do(vm, a).vm, cs).vm, b); r.Done? && r.value.Byte?
    ensures vm.pd[k].kpage < |vm.ram| && FirstByte(origin[k], vm.files, b.Ofs()).Some?
    ensures var e, i, x := origin[k], b.Ofs(), Do(Run(Do(vm, a).vm, cs).vm, b).value.b;
            && (x == ByteAt(vm, k, i) <==>
                  || (i < Sent(e, a.ok.write) && e.file !in vm.denied)
                  || Some(ByteAt(vm, k, i)) == FirstByte(e, vm.files, i))
            && Some(x) == (if i < Sent(e, a.ok.write) && e.file !in vm.denied then Some(ByteAt(vm, k, i))
                           else FirstByte(e, vm.files, i))
            && (e.zeroAfter <= i ==> x == 0)
  {
    hide Inv, Do, WriteBack, Sent, Run, ObserveAll, ReplyOk, Settled, Left, Fits;
    AccessEvicts(vm, origin, slots, mem, k, a);
    var vm1 := Do(vm, a).vm;
    var slots1 := DoIsTransparent(vm, origin, slots, mem, a);
    var mem1 := Settled(Left(mem, origin, a.Key(), a.ok.write), origin, vm.denied, a, Do(vm, a).value);
    assert Inv(vm1, origin, slots1, mem1, {});
    WriteBackHere(origin[k], vm.files, vm.denied, vm.ram[vm.pd[k].kpage], a.ok.write);
    BackingIsFirst(origin[k], vm.files, b.Ofs());
    RunStaysAway(vm1, origin, mem1, k, cs);
    RunIsTransparent(vm1, origin, mem1, cs);
    var Done(vm2, replies) := Run(vm1, cs);
    var mem2 := ObserveAll(mem1, origin, vm1.denied, cs, replies);
    var slots2 :| Inv(vm2, origin, slots2, mem2, {});
    LoadReplies(vm2, origin, slots2, mem2, k, b);
  }

  // --------------------------------------------------------------- three runs

  /** Memory for everything, or for everything but the write-back of a part of a sector. */
  function Plenty(write: bool): Allocs { Allocs(true, true, write, true) }

  function Key(n: nat): PageKey { PageKey(1, n) }

  function VisitWith(n: nat, write: bool): Access { Load(1, n * PGSIZE, 0, Plenty(write)) }

  function Visit(n: nat): Access { VisitWith(n, true) }

  lemma VisitIs(n: nat, write: bool)
    ensures VisitWith(n, write).Key() == Key(n) && VisitWith(n, write).Ofs() == 0
  {
  }

  /** A fault served from the pool. */
  lemma PoolFault(vm: Vm, k: PageKey, stack: bool, kp: nat)
    requires |vm.ram| == |vm.used| && kp < |vm.used| && !vm.used[kp] && forall i :: 0 <= i < kp ==> vm.used[i]
    requires k in vm.sup && !vm.sup[k].SwapPage? && Fits(vm.sup[k], vm.files)
    ensures PageFault(vm, k, stack, Plenty(true)) ==
            Done(Install(vm.(used := vm.used[kp := true]), k, kp, Backing(vm.sup[k], vm.files),
                         !vm.sup[k].ExecPage? || vm.sup[k].writable, false), Present)
  {
    assert FirstFree(vm.used) == kp;
  }

  /** With no page to spare and every frame accessed, the frame under the hand goes. */
  lemma FullFault(vm: Vm, k: PageKey, stack: bool, v: nat, ok: Allocs)
    requires |vm.ram| == |vm.used| && (forall i :: 0 <= i < |vm.used| ==> vm.used[i]) && k in vm.sup && ok.structs
    requires Settle(vm.hand, |vm.frames|) == At(v) && v < |vm.frames| && SomeLoaded(vm.frames)
    requires forall i :: 0 <= i < |vm.frames| ==> vm.frames[i].loaded && vm.frames[i].kpage < |vm.ram|
    requires forall i :: 0 <= i < |vm.frames| ==> vm.frames[i].key in vm.pd && vm.pd[vm.frames[i].key].accessed
    ensures v == Victim(vm.frames, vm.pd, v) && vm.frames[v].key in Scanned(vm.frames, vm.pd, v)
    ensures GetPage(vm, ok) == EvictAt(vm.(pd := Scanned(vm.frames, vm.pd, v)), v, ok)
  {
    assert FirstFree(vm.used) == |vm.used|;
    assert FirstEvictable(vm.frames, vm.pd, v, 0) == |vm.frames|;
    assert Pos(v, 0, |vm.frames|) == v;
    assert FirstLoaded(vm.frames, v, 0) == 0;
  }

  lemma LoadHits(vm: Vm, a: Access)
    requires a.Load? && a.Key() in vm.pd && vm.pd[a.Key()].kpage < |vm.ram|
    ensures var pte := vm.pd[a.Key()];
            Hit(vm, a) == Done(vm.(pd := vm.pd[a.Key() := pte.(accessed := true)]), Byte(vm.ram[pte.kpage][a.Ofs()]))
  {
  }

  lemma RunMore(vm: Vm, before: seq<Access>, a: Access)
    ensures Run(vm, []) == Done(vm, [])
    ensures Run(vm, before + [a]) == match Run(vm, before)
              case Panic => Panic
              case Done(vm1, replies) => match Do(vm1, a) case Panic => Panic case Done(vm2, r) =>
                Done(vm2, replies + [r])
  {
    assert (before + [a])[..|before|] == before;
  }

  /** One page of memory and two pages to visit: the second visit unlinks the only frame, and the hand is left on it. */
  lemma OneFrameDangles()
    ensures var vm := Boot(map[Key(0) := ZeroPage, Key(1) := ZeroPage], [], {}, [Zeros(PGSIZE)], []);
            Run(vm, [Visit(0)]).Done? && Run(vm, [Visit(0), Visit(1)]) == Panic && AfterRemove(At(0), 1, 0) == Dangling
  {
    hide PageFault, Hit, Run, Swap.Init;
    var vm := Boot(map[Key(0) := ZeroPage, Key(1) := ZeroPage], [], {}, [Zeros(PGSIZE)], []);
    VisitIs(0, true);
    VisitIs(1, true);
    PoolFault(vm, Key(0), IsStackAccess(0, 0), 0);
    var vm1 := Install(vm.(used := [true]), Key(0), 0, Zeros(PGSIZE), true, false);
    assert vm.used[0 := true] == [true];
    LoadHits(vm1, Visit(0));
    RunMore(vm, [], Visit(0));
    RunMore(vm, [Visit(0)], Visit(1));
    assert [] + [Visit(0)] == [Visit(0)] && [Visit(0)] + [Visit(1)] == [Visit(0), Visit(1)];
    OneFramePanics(Hit(vm1, Visit(0)).vm, Key(1), IsStackAccess(PGSIZE, 0));
  }

  lemma OneFramePanics(vm: Vm, k: PageKey, stack: bool)
    requires |vm.ram| == 1 && vm.used == [true] && k in vm.sup && vm.hand == Head && |vm.frames| == 1
    requires vm.frames[0].loaded && vm.frames[0].kpage == 0 && vm.frames[0].key in vm.pd
    requires vm.pd[vm.frames[0].key].accessed
    ensures PageFault(vm, k, stack, Plenty(true)) == Panic
  {
    hide Save;
    assert vm.frames[0].loaded;
    FullFault(vm, k, stack, 0, Plenty(true));
  }

  /** Enough for a fault to succeed with the pool exhausted: two frames, none of which needs a swap slot. */
  ghost predicate CanEvict(vm: Vm) {
    && |vm.ram| == |vm.used| && |vm.frames| >= 2 && HandOk(vm.hand, |vm.frames|)
    && (forall i :: 0 <= i < |vm.frames| ==> EvictsFreely(vm, vm.frames[i]))
  }

  ghost predicate EvictsFreely(vm: Vm, f: Frame) {
    && f.loaded && f.key in vm.pd && f.kpage < |vm.ram|
    && (vm.pd[f.key].dirty ==> f.key in vm.sup && vm.sup[f.key].FilePage? && Fits(vm.sup[f.key], vm.files))
  }

  lemma EvictionSucceeds(vm: Vm)
    requires CanEvict(vm)
    ensures Replace(vm, Plenty(true)).Done? && Replace(vm, Plenty(true)).value < |vm.ram|
    ensures Replace(vm, Plenty(true)).vm.ram == vm.ram
  {
    hide Swap.Write, AfterRemove;
    var n := |vm.frames|;
    assert EvictsFreely(vm, vm.frames[0]);
    var h := Settle(vm.hand, n);
    var v := Victim(vm.frames, vm.pd, h.i);
    assert EvictsFreely(vm, vm.frames[v]);
    RemoveDanglesIff(At(v), n, v);
  }

  lemma LoadSucceeds(vm: Vm, b: Access)
    requires CanEvict(vm) && b.Load? && b.ok == Plenty(true) && b.Key() !in vm.pd
    requires forall i :: 0 <= i < |vm.used| ==> vm.used[i]
    requires b.Key() in vm.sup && !vm.sup[b.Key()].SwapPage? && Fits(vm.sup[b.Key()], vm.files)
    ensures Do(vm, b).Done? && Do(vm, b).value.Byte?
  {
    hide Replace, CanEvict, Backing;
    EvictionSucceeds(vm);
    var k := b.Key();
    var Done(vm1, kp) := Replace(vm, b.ok);
    assert FirstFree(vm.used) == |vm.used| && GetPage(vm, b.ok) == Replace(vm, b.ok);
    assert Fits(vm.sup[k], vm1.files);
    var t := PageFault(vm, k, IsStackAccess(b.va, b.esp), b.ok);
    var writable := !vm.sup[k].ExecPage? || vm.sup[k].writable;
    assert t == Done(Install(vm1, k, kp, Backing(vm.sup[k], vm1.files), writable, false), Present);
  }

  // A page that maps the one byte of a file, and two pages of zeros.

  function Mapping(): SupTable { map[Key(0) := FilePage(0, 0, 1), Key(1) := ZeroPage, Key(2) := ZeroPage] }

  function Start(): Vm { Boot(Mapping(), [[9]], {}, [Zeros(PGSIZE), Zeros(PGSIZE)], []) }

  /** A store of 7, and a load, at byte `i` of the mapped page. */
  function PokeAt(i: nat): Access { Store(1, i, 7, 0, Plenty(true)) }
  function PeekAt(i: nat): Access { Load(1, i, 0, Plenty(true)) }

  lemma MappingIs(i: nat)
    requires i < PGSIZE
    ensures Layout(Mapping(), {}) && PokeAt(i).Key() == Key(0) && PokeAt(i).Ofs() == i
    ensures PeekAt(i).Key() == Key(0) && PeekAt(i).Ofs() == i
    ensures Fits(FilePage(0, 0, 1), [[9]]) && Sent(FilePage(0, 0, 1), false) == 0
    ensures Backing(FilePage(0, 0, 1), [[9]])[0] == 9
  {
  }

  /** After the store at byte `i` of the mapped page and a visit to the second page, memory is full. */
  lemma TwoResident(i: nat) returns (vm: Vm)
    requires i < PGSIZE
    ensures var r := Run(Start(), [PokeAt(i), Visit(1)]); r.Done? && r.vm == vm && r.value[0] == Stored
    ensures Full(vm) && vm.ram[0][i] == 7
  {
    hide PageFault, Run, Swap.Init, Backing, Hit;
    MappingIs(i);
    VisitIs(1, true);
    var vm0 := Start();
    PoolFault(vm0, Key(0), IsStackAccess(i, 0), 0);
    var p := Backing(FilePage(0, 0, 1), [[9]]);
    var vm1 := Install(vm0.(used := vm0.used[0 := true]), Key(0), 0, p, true, false);
    StoreHits(vm1, PokeAt(i));
    var vm2 := Hit(vm1, PokeAt(i)).vm;
    PoolFault(vm2, Key(1), IsStackAccess(PGSIZE, 0), 1);
    var vm3 := Install(vm2.(used := vm2.used[1 := true]), Key(1), 1, Backing(ZeroPage, [[9]]), true, false);
    LoadHits(vm3, Visit(1));
    vm := Hit(vm3, Visit(1)).vm;
    RunMore(vm0, [], PokeAt(i));
    RunMore(vm0, [PokeAt(i)], Visit(1));
    assert [] + [PokeAt(i)] == [PokeAt(i)] && [PokeAt(i)] + [Visit(1)] == [PokeAt(i), Visit(1)];
  }

  lemma StoreHits(vm: Vm, a: Access)
    requires a.Store? && a.Key() in vm.pd && vm.pd[a.Key()].kpage < |vm.ram| && vm.pd[a.Key()].writable
    ensures var pte := vm.pd[a.Key()];
            Hit(vm, a) == Done(vm.(pd := vm.pd[a.Key() := pte.(accessed := true, dirty := true)],
                                   ram := vm.ram[pte.kpage := Poke(vm.ram[pte.kpage], a.Ofs(), a.value)]), Stored)
  {
  }

  ghost predicate Full(vm: Vm) {
    && vm.frames == [Frame(Key(0), 0, true), Frame(Key(1), 1, true)] && vm.hand == Head && vm.used == [true, true]
    && |vm.ram| == 2 && vm.sup == Mapping() && vm.files == [[9]] && vm.denied == {}
    && vm.pd == map[Key(0) := Pte(0, true, true, true), Key(1) := Pte(1, true, true, false)]
  }

  /** The page found for a third page is the mapped page's. */
  lemma ThirdGetsPage(vm: Vm, write: bool) returns (vm1: Vm)
    requires Full(vm)
    ensures GetPage(vm, Plenty(write)) == Done(vm1, 0)
    ensures vm1 == vm.(pd := vm1.pd, files := vm1.files, frames := [vm.frames[1]], hand := At(0))
    ensures SameLengths([[9]], vm1.files) && vm1.pd.Keys == {Key(1)} && !vm1.pd[Key(1)].dirty
  {
    hide WriteBack, Scanned, Victim, EvictAt, Fits;
    MappingIs(0);
    assert vm.frames[0].loaded;
    FullFault(vm, Key(2), true, 0, Plenty(write));
    var pd' := Scanned(vm.frames, vm.pd, 0);
    ScannedKeeps(vm.frames, vm.pd, 0);
    assert Without(vm.frames, 0) == [vm.frames[1]];
    MappedEviction(vm.(pd := pd'), 0, Plenty(write));
    vm1 := EvictAt(vm.(pd := pd'), 0, Plenty(write)).vm;
  }

  /** The eviction of a dirty mapped page, of two or more. */
  lemma MappedEviction(vm: Vm, v: nat, ok: Allocs)
    requires v < |vm.frames| && |vm.frames| >= 2 && vm.frames[v].key in vm.pd && vm.frames[v].kpage < |vm.ram|
    requires var k := vm.frames[v].key;
             vm.pd[k].dirty && k in vm.sup && vm.sup[k].FilePage? && Fits(vm.sup[k], vm.files)
    ensures var f, n := vm.frames[v], |vm.frames|;
            EvictAt(vm, v, ok) ==
            Done(vm.(pd := vm.pd - {f.key},
                     files := WriteBack(vm.files, vm.denied, vm.sup[f.key], vm.ram[f.kpage], ok.write),
                     frames := Without(vm.frames, v),
                     hand := Settle(Next(AfterRemove(At(v), n, v), n - 1), n - 1)), f.kpage)
  {
    RemoveDanglesIff(At(v), |vm.frames|, v);
  }

  /** The visit to a third page evicts the mapped page. */
  lemma ThirdEvicts(vm: Vm, write: bool)
    requires Full(vm)
    ensures Do(vm, VisitWith(2, write)).Done? && Key(0) !in Do(vm, VisitWith(2, write)).vm.pd
    ensures var vm' := Do(vm, VisitWith(2, write)).vm;
            && CanEvict(vm') && vm'.used == [true, true] && vm'.sup == Mapping() && SameLengths([[9]], vm'.files)
  {
    hide PageFault, Hit, GetPage;
    VisitIs(2, write);
    var vm1 := ThirdGetsPage(vm, write);
    ZeroFault(vm, vm1, Key(2), IsStackAccess(2 * PGSIZE, 0), Plenty(write));
    var vm2 := Install(vm1, Key(2), 0, Zeros(PGSIZE), true, false);
    LoadHits(vm2, VisitWith(2, write));
    var vm3 := Hit(vm2, VisitWith(2, write)).vm;
    assert vm3.frames == [Frame(Key(1), 1, true), Frame(Key(2), 0, true)];
    assert EvictsFreely(vm3, vm3.frames[0]) && EvictsFreely(vm3, vm3.frames[1]);
  }

  lemma ScannedKeeps(frames: seq<Frame>, pd: PageMap, i: nat)
    requires i < |frames|
    ensures SameBut(pd, Scanned(frames, pd, i))
  {
  }

  lemma ZeroFault(vm: Vm, vm1: Vm, k: PageKey, stack: bool, ok: Allocs)
    requires k in vm.sup && vm.sup[k] == ZeroPage && GetPage(vm, ok) == Done(vm1, 0) && |vm1.ram| > 0 && ok.table
    ensures PageFault(vm, k, stack, ok) == Done(Install(vm1, k, 0, Zeros(PGSIZE), true, false), Present)
  {
  }

  /** The run in which the mapped page is stored to, evicted by the visit to the third page, and loaded again. */
  function Returning(i: nat, write: bool): seq<Access> { [PokeAt(i), Visit(1), VisitWith(2, write), PeekAt(i)] }

  /** The byte comes back as it was stored if it was written back, and else as it is in the file. */
  lemma Returns(i: nat, write: bool)
    requires i < PGSIZE
    ensures var r := Run(Start(), Returning(i, write));
            && r.Done? && r.value[0] == Stored && r.value[3].Byte?
            && r.value[3].b == if i < Sent(FilePage(0, 0, 1), write) then 7 else if i == 0 then 9 else 0
  {
    hide PageFault, Run, Do, Inv, ObserveAll, CanEvict, Boot, Sent, ReplyOk;
    MappingIs(i);
    VisitIs(2, write);
    var a, b, go := VisitWith(2, write), PeekAt(i), [PokeAt(i), Visit(1)];
    var vm := TwoResident(i);
    ThirdEvicts(vm, write);
    var vm1 := Do(vm, a).vm;
    LoadSucceeds(vm1, b);
    BootIsInv(Mapping(), [[9]], {}, [Zeros(PGSIZE), Zeros(PGSIZE)], []);
    RunIsTransparent(Start(), Mapping(), InitialMem(Mapping(), [[9]]), go);
    var mem := ObserveAll(InitialMem(Mapping(), [[9]]), Mapping(), {}, go, Run(Start(), go).value);
    var slots :| Inv(vm, Mapping(), slots, mem, {});
    RunMore(vm1, [], b);
    SurvivesEvictionIff(vm, Mapping(), slots, mem, Key(0), a, [], b);
    RunMore(Start(), go, a);
    RunMore(Start(), go + [a], b);
    assert go + [a] + [b] == Returning(i, write);
  }

  /** Two pages of memory: the byte stored behind the end of the mapped file is gone once its page has been evicted. */
  lemma StoredByteLost()
    ensures var r := Run(Start(), Returning(5, true)); r.Done? && r.value[0] == Stored && r.value[3] == Byte(0)
  {
    hide Run;
    Returns(5, true);
  }

  /** The byte stored in the file's part of a sector is gone if there was no memory to write it back. */
  lemma ShortWriteLost()
    ensures var r := Run(Start(), Returning(0, false)); r.Done? && r.value[0] == Stored && r.value[3] == Byte(9)
    ensures var r := Run(Start(), Returning(0, true)); r.Done? && r.value[0] == Stored && r.value[3] == Byte(7)
  {
    hide Run;
    MappingIs(0);
    Returns(0, false);
    Returns(0, true);
  }
}
