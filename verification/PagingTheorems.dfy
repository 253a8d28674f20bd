/**
 What demand paging does to a process and to its pages over every run, in terms of the pages registered, the files and
 the accesses alone: who dies and why, which page leaves memory and when, and what an access leaves behind.
 */
module PagingTheorems {
  import opened Base
  import opened FrameTable
  import opened Paging
  import Swap

  // ------------------------------------------------------------- who dies

  /**
   The page cannot be read whole: its file is too short, or a part of a sector needs a buffer there is no memory for.
   */
  ghost predicate Unreadable(e: SupPage, files: seq<File>, read: bool) {
    || FirstByte(e, files, 0) == None
    || (!read && !e.ZeroPage? && !e.SwapPage? && (e.offset % SECTOR_SIZE != 0 || e.zeroAfter % SECTOR_SIZE != 0))
  }

  lemma UnreadableIs(e: SupPage, files: seq<File>, read: bool)
    ensures !CanRead(e, files, read) ==> Unreadable(e, files, read)
    ensures Unreadable(e, files, read) && !(e.SwapPage? || e.ZeroPage? || e.zeroAfter == 0) ==> !CanRead(e, files, read)
  {
    BackingIsFirst(e, files, 0);
  }

  /** In the 2000 pages below the kernel, and at most 32 bytes below the stack pointer. */
  predicate NearStack(a: Access) {
    0xC000_0000 - 2000 * 4096 < a.va < 0xC000_0000 && a.esp <= a.va + 32
  }

  /** Nothing has been stored to the page so far. */
  ghost predicate NeverStored(accesses: seq<Access>, k: PageKey) {
    forall j :: 0 <= j < |accesses| ==> !(accesses[j].Store? && accesses[j].Key() == k)
  }

  /** Why access `n` of a run may kill its process. */
  ghost predicate Reason(origin: SupTable, files: seq<File>, accesses: seq<Access>, n: nat)
    requires n < |accesses|
  {
    var a := accesses[n]; var k := PageKey(a.pid, a.va / 4096);
    || (a.Store? && k in origin && origin[k].ExecPage? && !origin[k].writable)
    || !a.ok.table
    || (k in origin && Unreadable(origin[k], files, a.ok.read))
    || (k !in origin && NeverStored(accesses[..n], k) && !NearStack(a))
  }

  /**
   From boot, over every run, a process dies only at a store to a read-only page, for want of a page table, at a page
   that cannot be read, or at an address that is neither a page of its nor near its stack.
   */
  lemma DeathsHaveReasons(origin: SupTable, files: seq<File>, denied: set<nat>, ram: seq<Page>, disk: seq<Sector>,
                          accesses: seq<Access>, n: nat)
    requires Layout(origin, denied) && Run(Boot(origin, files, denied, ram, disk), accesses).Done? && n < |accesses|
    requires var replies := Run(Boot(origin, files, denied, ram, disk), accesses).value;
             replies[n] == Dead && forall j :: 0 <= j < n && accesses[j].pid == accesses[n].pid ==> replies[j] != Dead
    ensures Reason(origin, files, accesses, n)
  {
    hide Inv, Run, ObserveAll, CanRead, Unreadable, NeverStored;
    var vm, mem := Boot(origin, files, denied, ram, disk), InitialMem(origin, files);
    BootIsInv(origin, files, denied, ram, disk);
    RunIsTransparent(vm, origin, mem, accesses);
    var replies := Run(vm, accesses).value;
    var a := accesses[n];
    if a.Key() in origin {
      UnreadableIs(origin[a.Key()], files, a.ok.read);
    } else if !NeverStored(accesses[..n], a.Key()) {
      StoredIsPromised(mem, origin, denied, accesses[..n], replies[..n], a.Key());
    }
  }

  /** While its process lives, something is promised of a page that has been stored to. */
  lemma {:induction false} StoredIsPromised(mem: Mem, origin: SupTable, denied: set<nat>, accesses: seq<Access>,
                                            replies: seq<Reply>, k: PageKey)
    requires |accesses| == |replies| && !NeverStored(accesses, k)
    requires forall j :: 0 <= j < |accesses| && accesses[j].pid == k.pid ==> replies[j] != Dead
    ensures k in ObserveAll(mem, origin, denied, accesses, replies)
    decreases |accesses|
  {
    hide CutPage, Lossy;
    var n := |accesses| - 1;
    var j :| 0 <= j < |accesses| && accesses[j].Store? && accesses[j].Key() == k;
    if j < n {
      assert accesses[..n][j] == accesses[j];
      StoredIsPromised(mem, origin, denied, accesses[..n], replies[..n], k);
    }
  }

  /** The pages a process has: present, or in its supplemental table. */
  ghost function Pages(vm: Vm): set<PageKey> { vm.pd.Keys + vm.sup.Keys }

  /** An access gives no process a page but the one accessed. */
  lemma NoNewPages(vm: Vm, a: Access)
    ensures Do(vm, a).Done? ==> Pages(Do(vm, a).vm) <= Pages(vm) + {a.Key()}
  {
    hide GetPage, Fill;
    var j, stack := a.Key(), IsStackAccess(a.va, a.esp);
    if j !in vm.pd && (j in vm.sup || stack) && GetPage(vm, a.ok).Done? {
      var Done(vm1, kp) := GetPage(vm, a.ok);
      EvictionMovesPages(vm, a.ok);
      if kp < |vm1.ram| { FillAddsPage(vm1, j, kp, if j in vm.sup then Some(vm.sup[j]) else None, a.ok); }
    }
  }

  lemma EvictionMovesPages(vm: Vm, ok: Allocs)
    ensures GetPage(vm, ok).Done? ==> Pages(GetPage(vm, ok).vm) <= Pages(vm)
  {
    hide Victim, Scanned, Swap.Write, WriteBack;
  }

  lemma FillAddsPage(vm: Vm, j: PageKey, kp: nat, e: Option<SupPage>, ok: Allocs)
    requires kp < |vm.ram|
    ensures Fill(vm, j, kp, e, ok).Done? ==> Pages(Fill(vm, j, kp, e, ok).vm) <= Pages(vm) + {j}
  {
    hide Swap.Read, CanRead, Backing;
  }

  lemma {:induction false} OnlyAccessedPages(vm: Vm, accesses: seq<Access>, k: PageKey)
    requires Run(vm, accesses).Done? && k !in Pages(vm) && forall a :: a in accesses ==> a.Key() != k
    ensures k !in Pages(Run(vm, accesses).vm)
    decreases |accesses|
  {
    hide Do, Pages;
    if accesses != [] {
      var n := |accesses| - 1;
      OnlyAccessedPages(vm, accesses[..n], k);
      NoNewPages(Run(vm, accesses[..n]).vm, accesses[n]);
    }
  }

  /** The first access to an address that is neither in a registered page nor near the stack kills the process. */
  lemma UnmappedDies(origin: SupTable, files: seq<File>, denied: set<nat>, ram: seq<Page>, disk: seq<Sector>,
                     before: seq<Access>, a: Access)
    requires Run(Boot(origin, files, denied, ram, disk), before).Done?
    requires a.Key() !in origin && !NearStack(a) && forall c :: c in before ==> c.Key() != a.Key()
    ensures var vm := Run(Boot(origin, files, denied, ram, disk), before).vm; Do(vm, a) == Done(vm, Dead)
  {
    hide Run;
    OnlyAccessedPages(Boot(origin, files, denied, ram, disk), before, a.Key());
  }

  /** A fault kills the process exactly for these reasons; a page in swap can always be read. */
  lemma DiesIff(vm: Vm, origin: SupTable, slots: Swap.Slots, mem: Mem, a: Access)
    requires Inv(vm, origin, slots, mem, {}) && a.Key() !in vm.pd && Do(vm, a).Done?
    ensures var k := a.Key();
            Do(vm, a).value == Dead <==>
              || (k !in vm.sup && !NearStack(a))
              || !a.ok.table
              || (k in vm.sup && !vm.sup[k].SwapPage? && !CanRead(vm.sup[k], vm.files, a.ok.read))
              || (a.Store? && k in origin && origin[k].ExecPage? && !origin[k].writable)
  {
    hide Inv, GetPage, CanRead, Backing, Swap.Read, OutOfMemory;
    EntryIsOrigin(vm, origin, slots, mem, a.Key());
    if GetPage(vm, a.ok).Done? {
      ReadableStays(vm, a);
      EntryStays(vm, origin, slots, mem, a.Key(), a.ok);
    }
  }

  lemma EntryIsOrigin(vm: Vm, origin: SupTable, slots: Swap.Slots, mem: Mem, k: PageKey)
    requires Inv(vm, origin, slots, mem, {})
    ensures k in origin ==> k in vm.sup
    ensures k in vm.sup && !vm.sup[k].SwapPage? ==> k in origin && vm.sup[k] == origin[k]
    ensures k in vm.sup && vm.sup[k].SwapPage? ==> MayDirty(origin, k)
  {
    hide Shape, Kept, Layout, Swap.Refines;
    if k in vm.sup { assert EntryOk(vm.sup[k], vm.pd, origin, slots, k); }
  }

  lemma ReadableStays(vm: Vm, a: Access)
    requires GetPage(vm, a.ok).Done?
    ensures forall e :: CanRead(e, vm.files, a.ok.read) <==> CanRead(e, GetPage(vm, a.ok).vm.files, a.ok.read)
  {
    hide Sent, GetPage;
  }

  lemma EntryStays(vm: Vm, origin: SupTable, slots: Swap.Slots, mem: Mem, k: PageKey, ok: Allocs)
    requires Inv(vm, origin, slots, mem, {}) && k !in vm.pd && GetPage(vm, ok).Done?
    ensures k !in GetPage(vm, ok).vm.pd
  {
    hide Tables, Kept, Layout, Swap.Refines, GetPage;
    GetPageFrame(vm, k, ok);
  }

  // ------------------------------------------------------ which page leaves memory

  ghost predicate SomeFree(used: seq<bool>) { exists i :: 0 <= i < |used| && !used[i] }

  /** With a page of the pool free nothing is evicted; else the clock's choice, and the hand goes on behind it. */
  lemma EvictsByClock(vm: Vm, origin: SupTable, slots: Swap.Slots, mem: Mem, ok: Allocs)
    requires Inv(vm, origin, slots, mem, {}) && GetPage(vm, ok).Done?
    ensures SomeFree(vm.used) ==>
              var Done(vm', kp) := GetPage(vm, ok);
              && kp < |vm.used| && !vm.used[kp] && vm'.used == vm.used[kp := true]
              && vm'.pd == vm.pd && vm'.frames == vm.frames && vm'.files == vm.files && vm'.hand == vm.hand
    ensures !SomeFree(vm.used) ==>
              var Done(vm', kp) := GetPage(vm, ok); var n := |vm.frames|;
              && n >= 2 && HandOk(vm.hand, n) && SomeLoaded(vm.frames) && vm'.used == vm.used
              && var i := Settle(vm.hand, n).i; var v := Victim(vm.frames, vm.pd, i); var f := vm.frames[v];
                 && kp == f.kpage && vm'.frames == vm.frames[..v] + vm.frames[v + 1..]
                 && vm'.pd == Scanned(vm.frames, vm.pd, i) - {f.key}
                 && vm'.hand.At? && vm'.hand.i < n - 1
                 && vm'.frames[vm'.hand.i] == vm.frames[Pos(v, if n == 2 then 1 else 2, n)]
  {
    hide Shape, Tables, Kept, Layout, Swap.Refines, EvictAt, Victim, Scanned;
    if !SomeFree(vm.used) {
      assert FirstFree(vm.used) == |vm.used|;
      AllLoaded(vm.frames, vm.pd, vm.used);
      var i := Settle(vm.hand, |vm.frames|).i;
      var v := Victim(vm.frames, vm.pd, i);
      EvictedAt(vm.(pd := Scanned(vm.frames, vm.pd, i)), v, ok);
    }
  }

  lemma AllLoaded(frames: seq<Frame>, pd: PageMap, used: seq<bool>)
    requires Shape(frames, pd, used, {})
    ensures forall i :: 0 <= i < |frames| ==> frames[i].loaded
  {
    forall i | 0 <= i < |frames| ensures frames[i].loaded { assert FrameOk(pd, used, {}, frames[i]); }
  }

  lemma EvictedAt(vm: Vm, v: nat, ok: Allocs)
    requires v < |vm.frames| && vm.frames[v].key in vm.pd && vm.frames[v].kpage < |vm.ram|
    ensures EvictAt(vm, v, ok).Done? ==>
              var Done(vm', kp) := EvictAt(vm, v, ok); var n := |vm.frames|;
              && n >= 2 && kp == vm.frames[v].kpage && vm'.used == vm.used
              && vm'.frames == vm.frames[..v] + vm.frames[v + 1..] && vm'.pd == vm.pd - {vm.frames[v].key}
              && vm'.hand.At? && vm'.hand.i < n - 1
              && vm'.frames[vm'.hand.i] == vm.frames[Pos(v, if n == 2 then 1 else 2, n)]
  {
    hide WriteBack, Swap.Write;
    if |vm.frames| >= 2 { RemoveKeepsFrame(vm.frames, At(v), v); }
  }

  /**
   One access makes one page leave memory at most, none while a page is free, and no accessed one before the others.
   */
  lemma LeavesOnlyWhenFull(vm: Vm, origin: SupTable, slots: Swap.Slots, mem: Mem, a: Access, j: PageKey)
    requires Inv(vm, origin, slots, mem, {}) && Do(vm, a).Done? && j in vm.pd && j !in Do(vm, a).vm.pd
    ensures a.Key() !in vm.pd && !SomeFree(vm.used)
    ensures vm.pd[j].accessed ==> forall u :: u in vm.pd ==> vm.pd[u].accessed
    ensures forall u :: u in vm.pd && u != j ==> u in Do(vm, a).vm.pd
  {
    hide Inv, GetPage, Fill, Victim, Scanned;
    var k := a.Key();
    if k !in vm.pd && GetPage(vm, a.ok).Done? {
      var Done(vm1, kp) := GetPage(vm, a.ok);
      EvictsByClock(vm, origin, slots, mem, a.ok);
      if kp < |vm1.ram| { FillKeepsPages(vm1, k, kp, if k in vm.sup then Some(vm.sup[k]) else None, a.ok); }
      if !SomeFree(vm.used) { UnaccessedFirst(vm, origin, slots, mem); }
    }
  }

  lemma FillKeepsPages(vm: Vm, j: PageKey, kp: nat, e: Option<SupPage>, ok: Allocs)
    requires kp < |vm.ram|
    ensures Fill(vm, j, kp, e, ok).Done? ==> vm.pd.Keys <= Fill(vm, j, kp, e, ok).vm.pd.Keys
  {
    hide Swap.Read, CanRead, Backing;
  }

  /** The victim is accessed only if every page is. */
  lemma UnaccessedFirst(vm: Vm, origin: SupTable, slots: Swap.Slots, mem: Mem)
    requires Inv(vm, origin, slots, mem, {}) && |vm.frames| > 0 && SomeLoaded(vm.frames)
    ensures HandOk(vm.hand, |vm.frames|)
    ensures var f := vm.frames[Victim(vm.frames, vm.pd, Settle(vm.hand, |vm.frames|).i)];
            f.key in vm.pd && (vm.pd[f.key].accessed ==> forall u :: u in vm.pd ==> vm.pd[u].accessed)
  {
    hide Tables, Kept, Layout, Swap.Refines, Victim, Scanned;
    var i := Settle(vm.hand, |vm.frames|).i;
    var v := Victim(vm.frames, vm.pd, i);
    assert FrameOk(vm.pd, vm.used, {}, vm.frames[v]);
    KeysDistinct(vm.frames, vm.pd, vm.used);
    forall u | u in vm.pd && vm.pd[vm.frames[v].key].accessed ensures vm.pd[u].accessed {
      assert HoldsKey(vm.frames, u);
      var m :| 0 <= m < |vm.frames| && vm.frames[m].key == u;
      assert FrameOk(vm.pd, vm.used, {}, vm.frames[m]);
      SecondChance(vm.frames, vm.pd, i, m);
    }
  }

  lemma KeysDistinct(frames: seq<Frame>, pd: PageMap, used: seq<bool>)
    requires Shape(frames, pd, used, {})
    ensures DistinctKeys(frames)
  {
    forall i, j | 0 <= i < j < |frames| ensures frames[i].key != frames[j].key {
      assert FrameOk(pd, used, {}, frames[i]) && FrameOk(pd, used, {}, frames[j]);
    }
  }

  // ----------------------------------------------------------- what an access leaves

  /**
   An access that does not kill leaves its page present and marked accessed, and a store leaves the byte in the frame
   and the page marked dirty; a page brought in is last in the frame list.
   */
  lemma AccessMarks(vm: Vm, origin: SupTable, slots: Swap.Slots, mem: Mem, a: Access)
    requires Inv(vm, origin, slots, mem, {}) && Do(vm, a).Done? && Do(vm, a).value != Dead
    ensures var vm' := Do(vm, a).vm; var k := a.Key();
            && k in vm'.pd && vm'.pd[k].accessed && vm'.pd[k].kpage < |vm'.ram|
            && (a.Store? ==> vm'.pd[k].dirty && vm'.ram[vm'.pd[k].kpage][a.Ofs()] == a.value)
            && (a.Load? ==> Do(vm, a).value == Byte(vm'.ram[vm'.pd[k].kpage][a.Ofs()]))
            && (k !in vm.pd ==> vm'.frames != [] && vm'.frames[|vm'.frames| - 1] == Frame(k, vm'.pd[k].kpage, true))
  {
    hide Inv, GetPage, CanRead, Backing, Swap.Read;
  }
}
