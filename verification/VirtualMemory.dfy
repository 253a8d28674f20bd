/**
 The virtual-memory module as it updates its state: the frame list and hand of
 vm/frame.c, the page tables, the user pool, and the fault handler of
 userprog/exception.c, over the swap disk of module Swap.  Every method is proved
 against the function of module Paging that describes it.
 */
module VirtualMemory {
  import opened Base
  import opened FrameTable
  import opened Paging
  import Swap

  class Memory {
    var frames: seq<Frame>
    var hand: Hand
    var pd: PageMap
    var sup: SupTable
    var used: seq<bool>
    var ram: seq<Page>
    var files: seq<File>
    const denied: set<nat>
    const swap: Swap.SwapTable

    /** The pages as first registered, and the memory promised to the processes. */
    ghost const origin: SupTable
    ghost var mem: Mem

    ghost function State(): (vm: Vm)
      reads this, swap, swap.disk
    {
      Vm(frames, hand, pd, sup, used, ram, files, denied, swap.Disk())
    }

    ghost predicate Ok()
      reads this, swap, swap.disk
    {
      swap.Ok() && Inv(State(), origin, swap.slots, mem, {})
    }

    /** `ft_init`, over a pool of user pages and a fresh swap disk. */
    constructor (pages: SupTable, fs: seq<File>, deny: set<nat>, pool: seq<Page>, sw: Swap.SwapTable)
      requires Layout(pages, deny) && sw.Ok() && sw.slots == map[] && sw.Disk() == Swap.Init(sw.disk[..])
      ensures Ok() && mem == InitialMem(pages, fs) && swap == sw && origin == pages
      ensures State() == Boot(pages, fs, deny, pool, sw.disk[..])
    {
      frames, hand, pd, sup := [], Head, map[], pages;
      used := seq(|pool|, _ => false);
      ram, files, denied, swap := pool, fs, deny, sw;
      origin, mem := pages, InitialMem(pages, fs);
      new;
      BootIsInv(pages, fs, deny, pool, sw.disk[..]);
    }

    /** `check_and_set_hand`: off the sentinels and onto a frame, if there is one; a hand on a frame stays. */
    method CheckAndSetHand()
      modifies this`hand
      ensures |frames| > 0 && HandOk(old(hand), |frames|) ==> hand.At? && hand.i < |frames|
      ensures old(hand).At? ==> hand == old(hand)
      ensures hand == Settle(old(hand), |frames|)
    {
      if hand == Head {
        hand := Next(hand, |frames|);
      }
      if hand == Tail && |frames| > 0 {
        hand := At(0);
      }
    }

    /** `get_frame_for_replacement`: the second-chance sweep from the hand. */
    method GetFrameForReplacement() returns (v: nat)
      requires |frames| > 0 && HandOk(hand, |frames|) && Sweepable(frames, pd)
      modifies this`hand, this`pd
      ensures var i := Settle(old(hand), |frames|).i;
              v == Victim(frames, old(pd), i) && pd == Scanned(frames, old(pd), i) && hand == At(v)
    {
      hide Sweeping, Victim, Scanned;
      CheckAndSetHand();
      var n := |frames|;
      ghost var i0, c := hand.i, 0;
      SweepStart(frames, pd, i0);
      while !frames[hand.i].loaded || pd[frames[hand.i].key].accessed
        invariant hand.At? && hand.i < n && pd.Keys == old(pd).Keys
        invariant c < 2 * n && Sweeping(frames, old(pd), pd, i0, c, hand.i)
        decreases 2 * n - c
      {
        SweepStep(frames, old(pd), pd, i0, c, hand.i);
        if frames[hand.i].loaded {
          pd := ClearAccessed(pd, {frames[hand.i].key});
        }
        hand := Next(hand, n);
        CheckAndSetHand();
        c := c + 1;
      }
      SweepStop(frames, old(pd), pd, i0, c, hand.i);
      v := hand.i;
    }

    /** `ft_replacement`: `None` is a panic, or the hand left on freed memory. */
    method FtReplacement(ok: Allocs) returns (r: Option<nat>)
      requires Ok()
      modifies this, swap, swap.disk
      ensures swap.Ok() && mem == old(mem)
      ensures match r
              case Some(kpage) => Replace(old(State()), ok) == Done(State(), kpage)
              case None => Replace(old(State()), ok) == Panic
    {
      hide Inv, Sweepable, Swap.Refines, EvictAt, Victim, Scanned;
      if |frames| == 0 {
        return None;
      }
      ReadyToSweep(State(), origin, swap.slots, mem);
      var v := GetFrameForReplacement();
      assert Replace(old(State()), ok) == EvictAt(old(State()).(pd := pd), v, ok);
      EvictIgnoresHand(old(State()).(pd := pd), v, hand, ok);
      r := EvictUnderHand(v, ok);
    }

    /** The eviction of the frame under the hand. */
    method EvictUnderHand(v: nat, ok: Allocs) returns (r: Option<nat>)
      requires swap.Ok() && hand == At(v) && v < |frames| && frames[v].key in pd && frames[v].kpage < |ram|
      modifies this`pd, this`sup, this`files, this`frames, this`hand, swap, swap.disk
      ensures swap.Ok()
      ensures match r
              case Some(kpage) => EvictAt(old(State()), v, ok) == Done(State(), kpage)
              case None => EvictAt(old(State()), v, ok) == Panic
    {
      hide Swap.Refines, Save;
      var f := frames[v];
      var dirty := pd[f.key].dirty;
      pd := pd - {f.key};
      var saved := SavePage(f.key, ram[f.kpage], dirty, ok);
      if !saved {
        return None;
      }
      var n := |frames|;
      hand := AfterRemove(hand, n, v);
      frames := Without(frames, v);
      if hand == Dangling {
        return None;
      }
      hand := Next(hand, n - 1);
      CheckAndSetHand();
      r := Some(f.kpage);
    }

    /** The part of `ft_replacement` that saves a dirty page to its file or to swap. */
    method SavePage(k: PageKey, p: Page, dirty: bool, ok: Allocs) returns (saved: bool)
      requires swap.Ok()
      modifies this`sup, this`files, swap, swap.disk
      ensures swap.Ok()
      ensures Save(old(State()), k, p, dirty, ok) == if saved then Some(State()) else None
    {
      hide Swap.Refines, Swap.Write;
      if dirty {
        if k in sup && sup[k].FilePage? {
          if !Fits(sup[k], files) {
            return false;
          }
          files := WriteBack(files, denied, sup[k], p, ok.write);
        } else {
          var slot := swap.SlotWrite(p);
          if slot == None || !ok.structs {
            return false;
          }
          var evicted := if k in sup then Some(sup[k]) else None;
          sup := sup[k := SwapPage(slot.value, true, evicted)];
        }
      }
      saved := true;
    }

    /** `ft_get_page (PAL_USER)`, up to the frame it returns. */
    method FtGetPage(ok: Allocs) returns (r: Option<nat>)
      requires Ok()
      modifies this, swap, swap.disk
      ensures swap.Ok() && mem == old(mem)
      ensures match r
              case Some(kpage) => GetPage(old(State()), ok) == Done(State(), kpage)
              case None => GetPage(old(State()), ok) == Panic
    {
      hide Inv, Replace, Swap.Refines;
      var i := 0;
      while i < |used| && used[i]
        invariant 0 <= i <= FirstFree(used)
      {
        i := i + 1;
      }
      if i < |used| {
        used := used[i := true];
        r := Some(i);
      } else {
        r := FtReplacement(ok);
      }
      if !ok.structs {
        return None;
      }
    }

    /**
     `install_page` in a kernel page that has no frame, and the frame's entry in the frame table: with the bytes
     promised of it, the page is present and all of `m` is kept.
     */
    method InstallPage(k: PageKey, kpage: nat, p: Page, writable: bool, dirty: bool, ghost m: Mem)
      requires Installable(State(), origin, swap.slots, m, k, kpage, p, Pte(kpage, writable, false, dirty))
      modifies this`frames, this`pd, this`ram
      ensures Inv(State(), origin, swap.slots, m, {}) && State() == Install(old(State()), k, kpage, p, writable, dirty)
    {
      hide Inv, Resident;
      InstallKeepsInv(State(), origin, swap.slots, m, k, kpage, p, Pte(kpage, writable, false, dirty));
      ram := ram[kpage := p];
      pd := pd[k := Pte(kpage, writable, false, dirty)];
      frames := frames + [Frame(k, kpage, true)];
    }

    /** `ft_free_page` of a frame that was not installed: the pool has the kernel page back, and all of `m` is kept. */
    method FtFreePage(kpage: nat, ghost m: Mem)
      requires kpage < |used| && Inv(State(), origin, swap.slots, m, {kpage})
      modifies this`used
      ensures Inv(State(), origin, swap.slots, m, {}) && State() == GiveBack(old(State()), kpage)
    {
      hide Inv;
      GiveBackKeepsInv(State(), origin, swap.slots, m, kpage);
      used := used[kpage := false];
    }

    /** The part of `page_fault` that fills the frame by the page's type. */
    method FillFrame(k: PageKey, kpage: nat, e: Option<SupPage>, ok: Allocs) returns (out: Outcome)
      requires swap.Ok() && kpage < |ram| == |used| && Inv(State(), origin, swap.slots, mem, {kpage}) && k !in pd
      requires ok.structs && e == if k in sup then Some(sup[k]) else None
      modifies this`frames, this`pd, this`ram, this`sup, this`used, swap
      ensures swap.Ok() && Fill(old(State()), k, kpage, e, ok) == Done(State(), out)
      ensures Inv(State(), origin, swap.slots, if out == Killed && e.Some? && e.value.SwapPage? then mem - {k}
              else mem, {})
      ensures e.Some? && !e.value.SwapPage? && out == Present ==>
                kpage < |ram| && forall i :: 0 <= i < PGSIZE ==> FirstByte(e.value, files, i) == Some(ram[kpage][i])
    {
      hide Swap.Refines, Swap.Read, Inv, Installable, Resident, Backing, Sent;
      if e == None {
        if ok.table {
          GrowReady(State(), origin, swap.slots, mem, k, kpage);
          InstallPage(k, kpage, ram[kpage], true, false, mem);
          return Present;
        }
        FtFreePage(kpage, mem);
      } else if e.value.SwapPage? {
        SwapInReady(State(), origin, swap.slots, mem, k, kpage);
        var p := swap.SlotRead(e.value.slot);
        sup := Restored(sup, k, e.value.evicted);
        if ok.table {
          InstallPage(k, kpage, p, true, e.value.dirty, mem);
          return Present;
        }
        FtFreePage(kpage, mem - {k});
      } else {
        if CanRead(e.value, files, ok.read) && ok.table {
          ReadInReady(State(), origin, swap.slots, mem, k, kpage);
          forall i | 0 <= i < PGSIZE ensures FirstByte(e.value, files, i) == Some(Backing(e.value, files)[i]) {
            BackingIsFirst(e.value, files, i);
          }
          InstallPage(k, kpage, Backing(e.value, files), !e.value.ExecPage? || e.value.writable, false, mem);
          return Present;
        }
        FtFreePage(kpage, mem);
      }
      out := Killed;
    }

    /** `page_fault` on a page that is not present; `None` is a kernel panic. */
    method PageFault(k: PageKey, stack: bool, ok: Allocs) returns (out: Option<Outcome>)
      requires Ok() && k !in pd && AllSpared(mem, origin, k, ok.write)
      modifies this, swap, swap.disk
      ensures swap.Ok() && mem == old(mem)
      ensures match out
              case Some(o) => Paging.PageFault(old(State()), k, stack, ok) == Done(State(), o)
              case None => Paging.PageFault(old(State()), k, stack, ok) == Panic
    {
      hide Inv, Fill, GetPage, Swap.Refines, AllSpared;
      var e := if k in sup then Some(sup[k]) else None;
      if e == None && !stack {
        return Some(Killed);
      }
      ghost var slots' := FrameReady(State(), origin, swap.slots, mem, k, ok);
      var kpage := FtGetPage(ok);
      if kpage == None {
        return None;
      }
      Swap.SlotsUnique(swap.Disk(), swap.slots, slots');
      var o := FillFrame(k, kpage.value, e, ok);
      out := Some(o);
    }

    /** A user access.  Paging keeps and replies with exactly the promised memory. */
    method Access(a: Access) returns (reply: Option<Reply>)
      requires Ok()
      modifies this, swap, swap.disk
      ensures match reply
              case None => Do(old(State()), a) == Panic && OutOfMemory(old(State()), old(swap.slots), a.ok)
              case Some(r) =>
                && Do(old(State()), a) == Done(State(), r)
                && ReplyOk(old(files), old(mem), origin, a, r)
                && Ok() && mem == Observe(old(mem), origin, denied, a, r)
    {
      hide Inv, Paging.PageFault, Hit, Left, Settled, Swap.Refines, ReplyOk, OutOfMemory, AllSpared;
      ghost var slots' := DoIsTransparent(State(), origin, swap.slots, mem, a);
      LeftIsWeaker(mem, origin, a.Key(), a.ok.write);
      LeftIsSpared(mem, origin, a.Key(), a.ok.write);
      PromiseLess(State(), origin, swap.slots, mem, Left(mem, origin, a.Key(), a.ok.write), {});
      mem := Left(mem, origin, a.Key(), a.ok.write);
      TouchReady(State(), origin, swap.slots, mem, a);
      var present := true;
      if a.Key() !in pd {
        var out := PageFault(a.Key(), IsStackAccess(a.va, a.esp), a.ok);
        if out == None {
          return None;
        }
        present := out == Some(Present);
      }
      var r := Dead;
      if present {
        r := HitPage(a);
      }
      mem := Settled(mem, origin, denied, a, r);
      SlotsAgree(State(), origin, mem, slots', swap.slots);
      reply := Some(r);
    }

    /** What the hardware does on an access to a present page. */
    method HitPage(a: Access) returns (r: Reply)
      requires a.Key() in pd && pd[a.Key()].kpage < |ram|
      modifies this`pd, this`ram
      ensures Hit(old(State()), a) == Done(State(), r)
    {
      var k := a.Key();
      var pte := pd[k];
      match a
      case Load(_, _, _, _) =>
        r := Byte(ram[pte.kpage][a.Ofs()]);
        pd := pd[k := pte.(accessed := true)];
      case Store(_, _, b, _, _) =>
        if !pte.writable {
          return Dead;
        }
        ram := ram[pte.kpage := Poke(ram[pte.kpage], a.Ofs(), b)];
        pd := pd[k := pte.(accessed := true, dirty := true)];
        r := Stored;
    }
  }

  lemma SlotsAgree(vm: Vm, origin: SupTable, mem: Mem, slots: Swap.Slots, slots': Swap.Slots)
    requires Inv(vm, origin, slots, mem, {}) && Swap.Refines(vm.swap, slots')
    ensures slots == slots'
  {
    Swap.SlotsUnique(vm.swap, slots, slots');
  }

  /** After `ft_get_page` the frame can be filled from the entry found before it. */
  lemma FrameReady(vm: Vm, origin: SupTable, slots: Swap.Slots, mem: Mem, k: PageKey, ok: Allocs)
    returns (slots': Swap.Slots)
    requires Inv(vm, origin, slots, mem, {}) && k !in vm.pd && AllSpared(mem, origin, k, ok.write)
    ensures GetPage(vm, ok).Done? ==>
              var Done(vm', kp) := GetPage(vm, ok);
              && kp < |vm'.ram| == |vm'.used| && Inv(vm', origin, slots', mem, {kp}) && Swap.Refines(vm'.swap, slots')
              && k !in vm'.pd && (k in vm'.sup <==> k in vm.sup) && (k in vm.sup ==> vm'.sup[k] == vm.sup[k])
  {
    hide Shape, Tables, Kept, Layout, Swap.Refines, GetPage, AllSpared;
    slots' := GetPageKeepsInv(vm, origin, slots, mem, k, ok);
    GetPageFrame(vm, k, ok);
  }

  /** An access that does not kill its process ends up on a present page. */
  lemma TouchReady(vm: Vm, origin: SupTable, slots: Swap.Slots, mem: Mem, a: Access)
    requires Inv(vm, origin, slots, mem, {}) && AllSpared(mem, origin, a.Key(), a.ok.write)
    ensures Touch(vm, a).Done? && Touch(vm, a).value == Present ==>
              var vm' := Touch(vm, a).vm; a.Key() in vm'.pd && vm'.pd[a.Key()].kpage < |vm'.ram|
  {
    hide Inv, Paging.PageFault, AllSpared, MayKill;
    var slots' := slots;
    if a.Key() !in vm.pd {
      slots' := PageFaultKeepsInv(vm, origin, slots, mem, a.Key(), IsStackAccess(a.va, a.esp), a.ok);
    }
    var t := Touch(vm, a);
    if t.Done? && t.value == Present {
      ResidentOf(t.vm, origin, slots', mem, {}, a.Key());
    }
  }

  /** Where the hand stood before the sweep does not matter to the eviction. */
  lemma EvictIgnoresHand(vm: Vm, v: nat, hand: Hand, ok: Allocs)
    requires v < |vm.frames| && vm.frames[v].key in vm.pd && vm.frames[v].kpage < |vm.ram|
    ensures EvictAt(vm.(hand := hand), v, ok) == EvictAt(vm, v, ok)
  {
  }

  /** Under the invariant a nonempty frame list can be swept, and its frames name present pages and kernel pages. */
  lemma ReadyToSweep(vm: Vm, origin: SupTable, slots: Swap.Slots, mem: Mem)
    requires Inv(vm, origin, slots, mem, {}) && |vm.frames| > 0
    ensures Sweepable(vm.frames, vm.pd) && HandOk(vm.hand, |vm.frames|)
    ensures forall i :: 0 <= i < |vm.frames| ==> vm.frames[i].key in vm.pd && vm.frames[i].kpage < |vm.ram|
  {
    assert FrameOk(vm.pd, vm.used, {}, vm.frames[0]);
    forall i | 0 <= i < |vm.frames| ensures vm.frames[i].key in vm.pd && vm.frames[i].kpage < |vm.ram| {
      assert FrameOk(vm.pd, vm.used, {}, vm.frames[i]);
    }
    forall i, j | 0 <= i < j < |vm.frames| ensures vm.frames[i].key != vm.frames[j].key {
      assert FrameOk(vm.pd, vm.used, {}, vm.frames[i]) && FrameOk(vm.pd, vm.used, {}, vm.frames[j]);
    }
  }

  ghost predicate Sweepable(frames: seq<Frame>, pd: PageMap) {
    && SomeLoaded(frames) && DistinctKeys(frames)
    && forall i :: 0 <= i < |frames| && frames[i].loaded ==> frames[i].key in pd
  }

  /** After `c` steps from `i` the hand is at `h`; `pd0` was the page map at the start. */
  ghost predicate Sweeping(frames: seq<Frame>, pd0: PageMap, pd: PageMap, i: nat, c: nat, h: nat) {
    var n := |frames|;
    && i < n && c < 2 * n && h == Pos(i, if c < n then c else c - n, n)
    && pd == ClearAccessed(pd0, Passed(frames, i, if c < n then c else n))
    && FirstEvictable(frames, pd0, i, 0) >= (if c < n then c else n)
    && (c >= n ==> c - n <= FirstLoaded(frames, i, 0))
  }

  lemma SweepStart(frames: seq<Frame>, pd: PageMap, i: nat)
    requires i < |frames|
    ensures Sweeping(frames, pd, pd, i, 0, i)
  {
    assert Passed(frames, i, 0) == {};
    assert ClearAccessed(pd, {}) == pd;
  }

  lemma {:induction false} PassedStep(frames: seq<Frame>, i: nat, c: nat)
    requires i < |frames| && c < |frames|
    ensures var f := frames[Pos(i, c, |frames|)];
            Passed(frames, i, c + 1) == Passed(frames, i, c) + if f.loaded then {f.key} else {}
  {
    var n := |frames|;
    var f := frames[Pos(i, c, n)];
    var more := Passed(frames, i, c + 1);
    assert forall key :: key in more ==> key in Passed(frames, i, c) || (f.loaded && key == f.key);
    assert f.loaded ==> f.key in more;
  }

  lemma ClearTwice(pd: PageMap, a: set<PageKey>, b: set<PageKey>)
    ensures ClearAccessed(ClearAccessed(pd, a), b) == ClearAccessed(pd, a + b)
  {
  }

  /** In the first sweep a frame the hand passes is not evictable, and loses its accessed bit. */
  lemma FirstSweepStep(frames: seq<Frame>, pd0: PageMap, pd: PageMap, i: nat, c: nat, h: nat)
    requires Sweepable(frames, pd0) && Sweeping(frames, pd0, pd, i, c, h) && c < |frames|
    requires !frames[h].loaded || pd[frames[h].key].accessed
    ensures FirstEvictable(frames, pd0, i, 0) >= c + 1
    ensures (if frames[h].loaded then ClearAccessed(pd, {frames[h].key}) else pd)
            == ClearAccessed(pd0, Passed(frames, i, c + 1))
  {
    assert Distance(i, h, |frames|) == c;
    if frames[h].loaded { PassedIff(frames, i, c, h); }
    PassedStep(frames, i, c);
    ClearTwice(pd0, Passed(frames, i, c), {frames[h].key});
    assert Passed(frames, i, c) + {} == Passed(frames, i, c);
  }

  /** In the second sweep the hand passes only frames that are not loaded. */
  lemma SecondSweepStep(frames: seq<Frame>, pd0: PageMap, pd: PageMap, i: nat, c: nat, h: nat)
    requires Sweepable(frames, pd0) && Sweeping(frames, pd0, pd, i, c, h) && c >= |frames|
    requires !frames[h].loaded || pd[frames[h].key].accessed
    ensures !frames[h].loaded && c + 1 - |frames| <= FirstLoaded(frames, i, 0) < |frames|
  {
    assert Distance(i, h, |frames|) == c - |frames|;
    SomeLoadedFound(frames, i);
    if frames[h].loaded { PassedIff(frames, i, |frames|, h); }
  }

  lemma SweepStep(frames: seq<Frame>, pd0: PageMap, pd: PageMap, i: nat, c: nat, h: nat)
    requires Sweepable(frames, pd0) && Sweeping(frames, pd0, pd, i, c, h)
    requires !frames[h].loaded || pd[frames[h].key].accessed
    ensures c + 1 < 2 * |frames|
    ensures Sweeping(frames, pd0, if frames[h].loaded then ClearAccessed(pd, {frames[h].key}) else pd,
                     i, c + 1, if h + 1 < |frames| then h + 1 else 0)
  {
    if c < |frames| {
      FirstSweepStep(frames, pd0, pd, i, c, h);
    } else {
      SecondSweepStep(frames, pd0, pd, i, c, h);
    }
  }

  /** The frame at which the sweep stops is the one `Victim` names. */
  lemma SweepStop(frames: seq<Frame>, pd0: PageMap, pd: PageMap, i: nat, c: nat, h: nat)
    requires Sweepable(frames, pd0) && Sweeping(frames, pd0, pd, i, c, h)
    requires frames[h].loaded && !pd[frames[h].key].accessed
    ensures Victim(frames, pd0, i) == h && pd == Scanned(frames, pd0, i)
  {
    var n := |frames|;
    assert Distance(i, h, n) == if c < n then c else c - n;
    PassedIff(frames, i, if c < n then c else n, h);
    assert FirstEvictable(frames, pd0, i, 0) == if c < n then c else n;
  }
}
