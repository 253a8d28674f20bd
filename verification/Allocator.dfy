/** The loops and updates of threads/malloc.c and threads/palloc.c on mutable state, proved against module Malloc. */
module Allocator {
  import opened Base
  import opened Bits
  import opened Malloc

  /** `list_remove`: the element is taken off the list. */
  function Unlinked(q: seq<nat>, b: nat): (r: seq<nat>) {
    if q == [] then [] else if q[0] == b then q[1..] else [q[0]] + Unlinked(q[1..], b)
  }

  /** The elements of a list for which `gone` does not hold. */
  function Keep(q: seq<nat>, gone: set<nat>): (r: seq<nat>)
    ensures forall b :: b in r <==> b in q && b !in gone
  {
    if q == [] then [] else (if q[0] in gone then [] else [q[0]]) + Keep(q[1..], gone)
  }

  lemma {:induction false} KeepNone(q: seq<nat>)
    ensures Keep(q, {}) == q
  {
    if q != [] { KeepNone(q[1..]); }
  }

  lemma {:induction false} KeepMissing(q: seq<nat>, gone: set<nat>, b: nat)
    requires b !in q
    ensures Keep(q, gone + {b}) == Keep(q, gone)
  {
    if q != [] { KeepMissing(q[1..], gone, b); }
  }

  /** Taking off one more element of a list without repetitions. */
  lemma {:induction false} UnlinkKeeps(q: seq<nat>, gone: set<nat>, b: nat)
    requires Distinct(q) && b !in gone
    ensures Unlinked(Keep(q, gone), b) == Keep(q, gone + {b})
  {
    if q != [] {
      var rest := Keep(q[1..], gone);
      if q[0] == b {
        assert b !in q[1..];
        KeepMissing(q[1..], gone, b);
        assert ([b] + rest)[1..] == rest;
      } else {
        UnlinkKeeps(q[1..], gone, b);
        if q[0] !in gone { assert ([q[0]] + rest)[1..] == rest; }
        assert [] + rest == rest;
      }
    }
  }

  /** The addresses of the first `n` blocks of an arena. */
  ghost function First(p: nat, k: nat, n: nat): (s: set<nat>)
    requires k < 7
    ensures forall b :: b in s <==> exists i: nat :: i < n && b == Addr(p, k, i)
  {
    if n == 0 then {} else First(p, k, n - 1) + {Addr(p, k, n - 1)}
  }

  lemma {:induction false} KeepIsWithout(q: seq<nat>, p: nat, gone: set<nat>)
    requires forall b :: b in q ==> (b in gone <==> b / PGSIZE == p)
    ensures Keep(q, gone) == Without(q, p)
  {
    if q != [] { KeepIsWithout(q[1..], p, gone); }
  }

  class Arenas {
    const usedMap: Bitmap
    var pages: map<nat, Holder>
    var free: seq<seq<nat>>
    ghost var live: map<nat, nat>

    ghost predicate Valid()
      reads this, usedMap
    {
      usedMap.Valid() && |free| == 7
    }

    ghost function Now(): Heap
      requires Valid()
      reads this, usedMap, usedMap.bits
    {
      Heap(usedMap.Value(), pages, free, live)
    }

    constructor (n: nat)
      ensures Valid() && fresh(usedMap) && fresh(usedMap.bits) && Now() == Boot(n)
    {
      usedMap := new Bitmap(n);
      pages, free, live := map[], [[], [], [], [], [], [], []], map[];
    }

    /** `palloc_get_multiple` from the kernel pool. */
    method GetMultiple(n: nat) returns (p: Option<nat>)
      requires Valid()
      modifies usedMap.bits
      ensures Valid() && p == if n == 0 then None else Scan(old(Now()).used, 0, n, false)
      ensures Now() == old(Now()).(used := if p.Some? then SetRange(old(Now()).used, p.value, n, true)
              else old(Now()).used)
    {
      if n == 0 { return None; }
      p := usedMap.ScanAndFlip(0, n, false);
    }

    /** `palloc_free_multiple`: the pages were all in use. */
    method FreeMultiple(p: nat, n: nat)
      requires Valid() && AllAre(Now().used, p, n, true)
      modifies usedMap.bits
      ensures Valid() && Now() == old(Now()).(used := SetRange(old(Now()).used, p, n, false))
    {
      usedMap.SetMultiple(p, n, false);
    }

    /** The search of `malloc` for a descriptor. */
    method FindDescriptor(size: nat) returns (k: nat)
      ensures match Fit(size, 0) case Some(j) => k == j case None => k == 7
    {
      k := 0;
      while k < 7
        invariant k <= 7 && Fit(size, 0) == Fit(size, k)
      {
        if SIZES[k] >= size { return; }
        k := k + 1;
      }
    }

    /** The part of `malloc` that makes a new arena of page `p`. */
    method NewArena(p: nat, k: nat)
      requires Valid() && k < 7
      modifies this`pages, this`free
      ensures Valid()
      ensures Now() == old(Now()).(pages := old(pages)[p := Small(k, PER[k])],
              free := old(free)[k := old(free)[k] + Blocks(p, k)])
    {
      pages := pages[p := Small(k, PER[k])];
      var list := free[k];
      for i := 0 to PER[k]
        invariant list == free[k] + Blocks(p, k)[..i]
      {
        list := list + [Addr(p, k, i)];
      }
      assert Blocks(p, k)[..PER[k]] == Blocks(p, k);
      free := free[k := list];
    }

    /** The end of `malloc`: the first block of the free list is handed out. */
    method TakeFront(k: nat, size: nat) returns (block: Option<nat>)
      requires Valid() && k < 7 && free[k] != [] && free[k][0] / PGSIZE in pages
      requires pages[free[k][0] / PGSIZE].Small? && pages[free[k][0] / PGSIZE].cnt > 0
      modifies this`free, this`pages, this`live
      ensures Valid() && (Now(), block) == Take(old(Now()), k, size)
    {
      var b := free[k][0];
      free := free[k := free[k][1..]];
      pages := pages[b / PGSIZE := Small(pages[b / PGSIZE].k, pages[b / PGSIZE].cnt - 1)];
      live := live[b := size];
      block := Some(b);
    }

    /** The part of `malloc` for requests no descriptor serves. */
    method AllocateBig(size: nat) returns (block: Option<nat>)
      requires Valid() && size > 0 && Fit(size, 0).None?
      modifies this`pages, this`live, usedMap.bits
      ensures Valid() && (Now(), block) == Alloc(old(Now()), size)
    {
      hide BigPages, Take, Grow, Fit, Scan, SetRange;
      var n := BigPages(size);
      var p := GetMultiple(n);
      if p.None? { return None; }
      pages := pages[p.value := Big(n)];
      block := Some(p.value * PGSIZE + HEADER);
      live := live[block.value := size];
    }

    /** `malloc`. */
    method Allocate(size: nat) returns (block: Option<nat>)
      requires Valid() && Inv(Now()) && size < WORD
      modifies this, usedMap.bits
      ensures Valid() && Inv(Now()) && (Now(), block) == Alloc(old(Now()), size)
      ensures block.None? <==> NoMemory(old(Now()), size)
    {
      hide InvWith, PoolOk, Take, IsBlock, Fit, SetRange, Scan, BigPages, NoMemory;
      AllocKeeps(Now(), size);
      if size == 0 { return None; }
      var k := FindDescriptor(size);
      if k == 7 {
        block := AllocateBig(size);
        return;
      }
      if free[k] == [] {
        var p := GetMultiple(1);
        if p.None? { return None; }
        GrowKeeps(old(Now()), p.value, k);
        NewArena(p.value, k);
        FrontBlock(Now(), {p.value}, k);
      } else {
        FrontBlock(Now(), {}, k);
      }
      BlockKind(pages, free[k][0], k);
      block := TakeFront(k, size);
    }

    /** The loop of `free` that takes all blocks of an arena off the free list. */
    method Dissolve(p: nat, k: nat)
      requires Valid() && k < 7 && Distinct(free[k]) && p in pages && pages[p].Small?
      requires forall b :: b in free[k] && b / PGSIZE == p ==> IsBlock(pages, b, k)
      modifies this`free
      ensures Valid() && Now() == old(Now()).(free := old(free)[k := Without(old(free)[k], p)])
    {
      hide IsBlock, Keep, Without, First, Distinct;
      var list := free[k];
      ghost var q := list;
      KeepNone(q);
      assert First(p, k, 0) == {};
      for i := 0 to PER[k]
        invariant free == old(free) && list == Keep(q, First(p, k, i))
      {
        NextBlock(q, p, k, i);
        list := Unlinked(list, Addr(p, k, i));
      }
      AllBlocks(pages, q, p, k);
      free := free[k := list];
    }

    /** `free`. */
    method Release(b: nat)
      requires Valid() && Inv(Now()) && b in live
      modifies this, usedMap.bits
      ensures Valid() && Inv(Now()) && Now() == Free(old(Now()), b)
    {
      hide InvWith, PoolOk, IsBlock, Without, FreeSet;
      FreeKeeps(Now(), b);
      LiveBlock(Now(), b);
      RunFits(Now(), b / PGSIZE);
      var p := b / PGSIZE;
      match pages[p]
      case Small(k, cnt) =>
        ListOf(Now(), k);
        PushList(pages, free[k], b, k);
        ReleaseSmall(b, p, k, cnt);
      case Big(n) =>
        FreeMultiple(p, n);
        pages := pages - {p};
        live := live - {b};
      case Other(_) =>
    }

    /** `free` of a block of an arena. */
    method ReleaseSmall(b: nat, p: nat, k: nat, cnt: nat)
      requires Valid() && p == b / PGSIZE && p in pages && pages[p] == Small(k, cnt) && k < 7
      requires AllAre(Now().used, p, 1, true)
      requires Distinct([b] + free[k]) && forall x :: x in [b] + free[k] ==> IsBlock(pages, x, k)
      modifies this, usedMap.bits
      ensures Valid() && Now() == Free(old(Now()), b)
    {
      hide IsBlock, AllAre;
      ghost var h := Now();
      free := free[k := [b] + free[k]];
      if cnt + 1 >= PER[k] {
        Dissolve(p, k);
        FreeMultiple(p, 1);
        pages := pages - {p};
        assert free == h.free[k := Without([b] + h.free[k], p)];
      } else {
        pages := pages[p := Small(k, cnt + 1)];
      }
      live := live - {b};
    }
  }

  /** Taking the next block of the arena off the list. */
  lemma NextBlock(q: seq<nat>, p: nat, k: nat, i: nat)
    requires Distinct(q) && k < 7 && i < PER[k]
    ensures Unlinked(Keep(q, First(p, k, i)), Addr(p, k, i)) == Keep(q, First(p, k, i + 1))
  {
    hide Addr;
    AddrIndex(p, k, i);
    forall j: nat | j < i ensures Addr(p, k, j) != Addr(p, k, i) { AddrIndex(p, k, j); }
    UnlinkKeeps(q, First(p, k, i), Addr(p, k, i));
  }

  /** The blocks of the arena on the list are all those of its page. */
  lemma AllBlocks(pages: map<nat, Holder>, q: seq<nat>, p: nat, k: nat)
    requires k < 7 && forall b :: b in q && b / PGSIZE == p ==> IsBlock(pages, b, k)
    ensures Keep(q, First(p, k, PER[k])) == Without(q, p)
  {
    hide Addr;
    forall b | b in q ensures b in First(p, k, PER[k]) <==> b / PGSIZE == p {
      if b / PGSIZE == p { BlockAddr(pages, b, k); }
      forall j: nat | j < PER[k] ensures Addr(p, k, j) / PGSIZE == p { AddrIndex(p, k, j); }
    }
    KeepIsWithout(q, p, First(p, k, PER[k]));
  }

  lemma ListOf(h: Heap, k: nat)
    requires Inv(h) && k < 7
    ensures ListOk(h.pages, h.free[k], k)
  {
  }

  lemma RunFits(h: Heap, p: nat)
    requires Inv(h) && p in h.pages
    ensures AllAre(h.used, p, Span(h.pages[p]), true)
  {
    hide ListOk, ArenaOk, LiveOk;
    forall q | p <= q < p + Span(h.pages[p]) ensures q < |h.used| && h.used[q] { assert InRun(h.pages, p, q); }
  }
}
