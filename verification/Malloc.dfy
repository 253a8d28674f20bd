/**
 The kernel's block allocator (threads/malloc.c) over its page allocator (threads/palloc.c).
 Addresses are byte offsets from the base of the kernel pool.
 */
module Malloc {
  import opened Base
  import opened Bits
  import Arithmetic

  const WORD: nat := 0x1_0000_0000     // size_t wraps here
  const HEADER: nat := 12              // sizeof (struct arena)

  /** Block sizes of the descriptors, and how many blocks of each fit behind a header in a page. */
  const SIZES: seq<nat> := [16, 32, 64, 128, 256, 512, 1024]
  const PER: seq<nat> := [255, 127, 63, 31, 15, 7, 3]

  /** `malloc_init`: the descriptors are those sizes, each half of the next, below half a page. */
  method MallocInit() returns (descs: seq<(nat, nat)>)
    ensures |descs| == 7 && forall k :: 0 <= k < 7 ==> descs[k] == (SIZES[k], PER[k])
  {
    descs := [];
    var blockSize := 16;
    while blockSize < PGSIZE / 2
      invariant |descs| <= 7 && blockSize == (if |descs| == 7 then 2048 else SIZES[|descs|])
      invariant forall k :: 0 <= k < |descs| ==> descs[k] == (SIZES[k], PER[k])
      decreases 7 - |descs|
    {
      descs := descs + [(blockSize, (PGSIZE - HEADER) / blockSize)];
      blockSize := blockSize * 2;
    }
  }

  /**
   Who holds a run of pages, by its first page: an arena of small blocks, a big block, or another client of palloc.
   */
  datatype Holder = Small(k: nat, cnt: nat) | Big(n: nat) | Other(n: nat)

  datatype Heap = Heap(
    used: seq<bool>,             // used_map of the kernel pool
    pages: map<nat, Holder>,     // first page of each run in use
    free: seq<seq<nat>>,         // free list of each descriptor
    live: map<nat, nat>)         // blocks handed out and not freed, with the size asked for

  function Span(x: Holder): nat { if x.Small? then 1 else x.n }

  // ---------------------------------------------------------------- addresses

  /** `arena_to_block`. */
  function Addr(p: nat, k: nat, i: nat): nat
    requires k < 7
  {
    p * PGSIZE + HEADER + i * SIZES[k]
  }

  /** The block an address lies at in its arena. */
  function Index(b: nat, k: nat): int
    requires k < 7
  {
    (b % PGSIZE - HEADER) / SIZES[k]
  }

  /** The assertions of `block_to_arena`, and that the block is one of the arena's. */
  predicate IsBlock(pages: map<nat, Holder>, b: nat, k: nat) {
    && k < 7 && b / PGSIZE in pages && pages[b / PGSIZE].Small? && pages[b / PGSIZE].k == k
    && b % PGSIZE >= HEADER && (b % PGSIZE - HEADER) % SIZES[k] == 0 && 0 <= Index(b, k) < PER[k]
  }

  predicate IsBig(pages: map<nat, Holder>, b: nat) {
    b / PGSIZE in pages && pages[b / PGSIZE].Big? && b % PGSIZE == HEADER
  }

  /** The number of an arena's block and its address determine each other. */
  lemma AddrIndex(p: nat, k: nat, i: nat)
    requires k < 7 && i < PER[k]
    ensures var b := Addr(p, k, i);
            b / PGSIZE == p && b % PGSIZE == HEADER + i * SIZES[k] && b % PGSIZE + SIZES[k] <= PGSIZE
            && (b % PGSIZE - HEADER) % SIZES[k] == 0 && Index(b, k) == i
  {
    BlocksFit(k);
    Arithmetic.MulMono(i + 1, PER[k], SIZES[k]);
    var s := i * SIZES[k];
    assert (i + 1) * SIZES[k] == s + SIZES[k];
    InPage(p, HEADER + s);
    Arithmetic.DivUnique(s, SIZES[k], i);
    assert s == s / SIZES[k] * SIZES[k] + s % SIZES[k];
  }

  /** The blocks of an arena fit behind its header. */
  lemma BlocksFit(k: nat)
    requires k < 7
    ensures SIZES[k] > 0 && HEADER + PER[k] * SIZES[k] <= PGSIZE
  {
    if k == 0 { assert SIZES[k] == 16; }
    else if k == 1 { assert SIZES[k] == 32; }
    else if k == 2 { assert SIZES[k] == 64; }
    else if k == 3 { assert SIZES[k] == 128; }
    else if k == 4 { assert SIZES[k] == 256; }
    else if k == 5 { assert SIZES[k] == 512; }
    else { assert SIZES[k] == 1024; }
  }

  lemma InPage(p: nat, ofs: nat)
    requires ofs < PGSIZE
    ensures (p * PGSIZE + ofs) / PGSIZE == p && (p * PGSIZE + ofs) % PGSIZE == ofs
  {
  }

  lemma BlockAddr(pages: map<nat, Holder>, b: nat, k: nat)
    requires IsBlock(pages, b, k)
    ensures b == Addr(b / PGSIZE, k, Index(b, k))
  {
    if k == 0 { assert SIZES[k] == 16; }
    else if k == 1 { assert SIZES[k] == 32; }
    else if k == 2 { assert SIZES[k] == 64; }
    else if k == 3 { assert SIZES[k] == 128; }
    else if k == 4 { assert SIZES[k] == 256; }
    else if k == 5 { assert SIZES[k] == 512; }
    else { assert SIZES[k] == 1024; }
  }

  // --------------------------------------------------------------- operations

  /** The smallest descriptor whose blocks are large enough. */
  function Fit(size: nat, k: nat): (r: Option<nat>)
    requires k <= 7
    ensures r.Some? ==> k <= r.value < 7 && size <= SIZES[r.value] && forall j :: k <= j < r.value ==> SIZES[j] < size
    ensures r.None? ==> forall j :: k <= j < 7 ==> SIZES[j] < size
    decreases 7 - k
  {
    if k == 7 then None else if SIZES[k] >= size then Some(k) else Fit(size, k + 1)
  }

  /** Pages for a big block: the request plus a header, rounded up, in wrapping 32-bit arithmetic. */
  function BigPages(size: nat): nat { (size + HEADER + PGSIZE - 1) % WORD / PGSIZE }

  function Blocks(p: nat, k: nat): (bs: seq<nat>)
    requires k < 7
    ensures |bs| == PER[k] && forall i :: 0 <= i < PER[k] ==> bs[i] == Addr(p, k, i)
  {
    seq(PER[k], i requires 0 <= i < PER[k] => Addr(p, k, i))
  }

  /** A new arena: a page divided into blocks, all on the free list. */
  function Grow(h: Heap, p: nat, k: nat): (r: Heap)
    requires k < 7 && |h.free| == 7
  {
    h.(used := SetRange(h.used, p, 1, true), pages := h.pages[p := Small(k, PER[k])],
        free := h.free[k := h.free[k] + Blocks(p, k)])
  }

  /** The first free block is handed out. */
  function Take(h: Heap, k: nat, size: nat): (r: (Heap, Option<nat>))
    requires k < 7 && |h.free| == 7
  {
    if h.free[k] == [] then (h, None)
    else
      var b := h.free[k][0];
      var p := b / PGSIZE;
      if p !in h.pages || !h.pages[p].Small? || h.pages[p].cnt == 0 then (h, None)
      else (h.(pages := h.pages[p := Small(h.pages[p].k, h.pages[p].cnt - 1)], free := h.free[k := h.free[k][1..]],
          live := h.live[b := size]), Some(b))
  }

  /** `malloc`. */
  function Alloc(h: Heap, size: nat): (r: (Heap, Option<nat>))
    requires |h.free| == 7
  {
    if size == 0 then (h, None)
    else match Fit(size, 0)
      case Some(k) =>
        if h.free[k] != [] then Take(h, k, size)
        else (match Scan(h.used, 0, 1, false)
              case None => (h, None)
              case Some(p) => Take(Grow(h, p, k), k, size))
      case None =>
        var n := BigPages(size);
        if n == 0 then (h, None)
        else match Scan(h.used, 0, n, false)
          case None => (h, None)
          case Some(p) =>
            (h.(used := SetRange(h.used, p, n, true), pages := h.pages[p := Big(n)],
                live := h.live[p * PGSIZE + HEADER := size]), Some(p * PGSIZE + HEADER))
  }

  /** A free list without the blocks of page `p`. */
  function Without(q: seq<nat>, p: nat): (r: seq<nat>)
    ensures forall b :: b in r <==> b in q && b / PGSIZE != p
  {
    if q == [] then [] else (if q[0] / PGSIZE == p then [] else [q[0]]) + Without(q[1..], p)
  }

  /** `free`. */
  function Free(h: Heap, b: nat): (r: Heap)
    requires |h.free| == 7
  {
    var p := b / PGSIZE;
    if p !in h.pages then h
    else match h.pages[p]
      case Small(k, cnt) =>
        if k >= 7 then h
        else if cnt + 1 < PER[k] then
          h.(pages := h.pages[p := Small(k, cnt + 1)], free := h.free[k := [b] + h.free[k]], live := h.live - {b})
        else
          Heap(SetRange(h.used, p, 1, false), h.pages - {p}, h.free[k := Without([b] + h.free[k], p)], h.live - {b})
      case Big(n) => Heap(SetRange(h.used, p, n, false), h.pages - {p}, h.free, h.live - {b})
      case Other(_) => h
  }

  // ---------------------------------------------------------------- invariant

  predicate InRun(pages: map<nat, Holder>, p: nat, q: nat) {
    p in pages && p <= q < p + Span(pages[p])
  }

  /** The pages marked used are those of the runs in use, and runs do not overlap. */
  ghost predicate PoolOk(used: seq<bool>, pages: map<nat, Holder>) {
    && (forall p :: p in pages ==> Span(pages[p]) > 0 && p + Span(pages[p]) <= |used|)
    && (forall q: nat :: q < |used| ==> (used[q] <==> exists p: nat :: InRun(pages, p, q)))
    && (forall p: nat, p': nat, q: nat :: InRun(pages, p, q) && InRun(pages, p', q) ==> p == p')
  }

  /** The numbers of the arena's blocks that are on the free list. */
  ghost function FreeSet(q: seq<nat>, p: nat, k: nat): set<nat>
    requires k < 7
  {
    set i: nat | i < PER[k] && Addr(p, k, i) in q
  }

  /** Free lists hold blocks of arenas of their descriptor, each once. */
  ghost predicate ListOk(pages: map<nat, Holder>, q: seq<nat>, k: nat) {
    Distinct(q) && forall b :: b in q ==> IsBlock(pages, b, k)
  }

  /** An arena counts its free blocks; if `busy`, some of its blocks are in use. */
  ghost predicate ArenaOk(x: Holder, free: seq<seq<nat>>, p: nat, busy: bool)
    requires |free| == 7
  {
    x.Small? ==> x.k < 7 && x.cnt == |FreeSet(free[x.k], p, x.k)| && (busy ==> x.cnt < PER[x.k])
  }

  /** Whether a block is in use: a big block, or a block of an arena that is not on the free list. */
  ghost predicate InUse(pages: map<nat, Holder>, free: seq<seq<nat>>, b: nat)
    requires |free| == 7
  {
    IsBig(pages, b) || (exists k: nat :: k < 7 && IsBlock(pages, b, k) && b !in free[k])
  }

  /** How many bytes a block can hold. */
  function Capacity(pages: map<nat, Holder>, b: nat): int
    requires b / PGSIZE in pages && (pages[b / PGSIZE].Small? ==> pages[b / PGSIZE].k < 7)
  {
    match pages[b / PGSIZE]
    case Small(k, _) => SIZES[k]
    case Big(n) => PGSIZE * n - HEADER
    case Other(_) => 0
  }

  /** A block holds what was asked for, unless the request wrapped around. */
  ghost predicate Fits(pages: map<nat, Holder>, b: nat, size: nat) {
    && b / PGSIZE in pages && (pages[b / PGSIZE].Small? ==> pages[b / PGSIZE].k < 7)
    && (size <= Capacity(pages, b) || size >= WORD - 11)
  }

  ghost predicate LiveOk(pages: map<nat, Holder>, free: seq<seq<nat>>, live: map<nat, nat>)
    requires |free| == 7
  {
    && (forall b: nat :: b in live <==> InUse(pages, free, b))
    && (forall b :: b in live ==> Fits(pages, b, live[b]))
  }

  ghost predicate InvWith(h: Heap, idle: set<nat>) {
    && |h.free| == 7 && PoolOk(h.used, h.pages)
    && (forall k :: 0 <= k < 7 ==> ListOk(h.pages, h.free[k], k))
    && (forall p :: p in h.pages ==> ArenaOk(h.pages[p], h.free, p, p !in idle))
    && LiveOk(h.pages, h.free, h.live)
  }

  ghost predicate Inv(h: Heap) { InvWith(h, {}) }

  // --------------------------------------------------------------- page lemmas

  lemma PoolAdd(used: seq<bool>, pages: map<nat, Holder>, p: nat, x: Holder)
    requires PoolOk(used, pages) && Span(x) > 0 && AllAre(used, p, Span(x), false)
    ensures p !in pages && PoolOk(SetRange(used, p, Span(x), true), pages[p := x])
  {
    var used', pages' := SetRange(used, p, Span(x), true), pages[p := x];
    assert p in pages ==> InRun(pages, p, p);
    forall q: nat, r: nat | InRun(pages, r, q) ensures r != p && InRun(pages', r, q) && !(p <= q < p + Span(x)) {
      assert q < |used| && used[q];
      assert InRun(pages, r, r) && used[r];
    }
    forall q: nat | q < |used| && used'[q] ensures exists r: nat :: InRun(pages', r, q) {
      if p <= q < p + Span(x) {
        assert InRun(pages', p, q);
      } else {
        var r: nat :| InRun(pages, r, q);
        assert InRun(pages', r, q);
      }
    }
    assert forall q: nat, r: nat :: InRun(pages', r, q) ==> r == p || InRun(pages, r, q);
  }

  lemma PoolRemove(used: seq<bool>, pages: map<nat, Holder>, p: nat)
    requires PoolOk(used, pages) && p in pages
    ensures PoolOk(SetRange(used, p, Span(pages[p]), false), pages - {p})
  {
    var used', pages' := SetRange(used, p, Span(pages[p]), false), pages - {p};
    forall q: nat, r: nat | InRun(pages', r, q) ensures InRun(pages, r, q) && !InRun(pages, p, q) {
      assert InRun(pages, r, q);
    }
    forall q: nat | q < |used| && used'[q] ensures exists r: nat :: InRun(pages', r, q) {
      var r: nat :| InRun(pages, r, q);
      assert InRun(pages', r, q);
    }
    assert forall q: nat, r: nat :: InRun(pages', r, q) ==> q < |used| && used[q] && used'[q];
  }

  lemma PoolPut(used: seq<bool>, pages: map<nat, Holder>, p: nat, x: Holder)
    requires PoolOk(used, pages) && p in pages && Span(x) == Span(pages[p])
    ensures PoolOk(used, pages[p := x])
  {
    var pages' := pages[p := x];
    forall q: nat, r: nat ensures InRun(pages', r, q) <==> InRun(pages, r, q) { }
    forall q: nat | q < |used| && used[q] ensures exists r: nat :: InRun(pages', r, q) {
      var r: nat :| InRun(pages, r, q);
      assert InRun(pages', r, q);
    }
  }

  // ------------------------------------------------------------ counting lemmas

  ghost function Range(n: nat): (r: set<nat>)
    ensures forall i: nat :: i in r <==> i < n
  {
    if n == 0 then {} else Range(n - 1) + {n - 1}
  }

  lemma {:induction false} RangeCard(n: nat)
    ensures |Range(n)| == n
  {
    if n > 0 { RangeCard(n - 1); }
  }

  lemma {:induction false} SubsetCard(s: set<nat>, t: set<nat>)
    requires s <= t
    ensures |s| <= |t| && (|s| == |t| ==> s == t)
  {
    if s != {} {
      var x :| x in s;
      SubsetCard(s - {x}, t - {x});
    }
  }

  lemma FreeSetBound(q: seq<nat>, p: nat, k: nat)
    requires k < 7
    ensures |FreeSet(q, p, k)| <= PER[k] && (|FreeSet(q, p, k)| == PER[k] ==> FreeSet(q, p, k) == Range(PER[k]))
  {
    RangeCard(PER[k]);
    SubsetCard(FreeSet(q, p, k), Range(PER[k]));
  }

  /** Block `b` joins a list it was not on: its arena has one more free block, no other has. */
  lemma FreeSetPush(pages: map<nat, Holder>, q: seq<nat>, q': seq<nat>, b: nat, k: nat, p: nat)
    requires IsBlock(pages, b, k) && b !in q && b in q' && forall x :: x != b ==> (x in q' <==> x in q)
    ensures FreeSet(q', p, k) == FreeSet(q, p, k) + (if p == b / PGSIZE then {Index(b, k)} else {})
    ensures |FreeSet(q', p, k)| == |FreeSet(q, p, k)| + (if p == b / PGSIZE then 1 else 0)
  {
    BlockAddr(pages, b, k);
    forall i: nat | i < PER[k] ensures Addr(p, k, i) == b <==> p == b / PGSIZE && i == Index(b, k) {
      AddrIndex(p, k, i);
    }
    assert Index(b, k) !in FreeSet(q, b / PGSIZE, k);
  }

  /** Blocks of one page only matter to the arena in it. */
  lemma FreeSetElsewhere(q: seq<nat>, q': seq<nat>, p: nat, k: nat)
    requires k < 7 && forall x :: x / PGSIZE == p ==> (x in q' <==> x in q)
    ensures FreeSet(q', p, k) == FreeSet(q, p, k)
  {
    forall i: nat | i < PER[k] ensures Addr(p, k, i) in q' <==> Addr(p, k, i) in q { AddrIndex(p, k, i); }
  }

  lemma {:induction false} WithoutDistinct(q: seq<nat>, p: nat)
    requires Distinct(q)
    ensures Distinct(Without(q, p))
  {
    if q != [] {
      var r := Without(q[1..], p);
      WithoutDistinct(q[1..], p);
      forall i | 0 <= i < |r| ensures r[i] != q[0] { assert r[i] in q[1..]; }
    }
  }

  // ------------------------------------------------------------------- malloc

  /** The count of an arena does not matter to which addresses are its blocks. */
  lemma SameBlocks(pages: map<nat, Holder>, p: nat, cnt: nat)
    requires p in pages && pages[p].Small?
    ensures var pages' := pages[p := Small(pages[p].k, cnt)];
            && (forall b: nat, k: nat :: IsBlock(pages', b, k) <==> IsBlock(pages, b, k))
            && (forall b: nat :: IsBig(pages', b) <==> IsBig(pages, b))
  {
  }

  lemma ListsKept(pages: map<nat, Holder>, pages': map<nat, Holder>, q: seq<nat>, k: nat)
    requires ListOk(pages, q, k) && forall b :: b in q && IsBlock(pages, b, k) ==> IsBlock(pages', b, k)
    ensures ListOk(pages', q, k)
  {
  }

  /** The front of a free list is a block of an arena that counts it. */
  lemma FrontBlock(h: Heap, idle: set<nat>, k: nat)
    requires InvWith(h, idle) && k < 7 && h.free[k] != []
    ensures var b := h.free[k][0]; IsBlock(h.pages, b, k) && h.pages[b / PGSIZE].cnt > 0
  {
    var b := h.free[k][0];
    assert ListOk(h.pages, h.free[k], k) && b in h.free[k];
    assert ArenaOk(h.pages[b / PGSIZE], h.free, b / PGSIZE, b / PGSIZE !in idle);
    BlockAddr(h.pages, b, k);
    assert Index(b, k) in FreeSet(h.free[k], b / PGSIZE, k);
  }

  /** Handing out the front of a free list. */
  lemma TakeKeeps(h: Heap, idle: set<nat>, k: nat, size: nat)
    requires InvWith(h, idle) && k < 7 && h.free[k] != [] && size <= SIZES[k] && idle <= {h.free[k][0] / PGSIZE}
    ensures var (h', r) := Take(h, k, size);
            r == Some(h.free[k][0]) && Inv(h') && h'.live == h.live[h.free[k][0] := size] && h.free[k][0] !in h.live
                && h'.used == h.used
  {
    hide PoolOk, IsBlock, FreeSet;
    FrontBlock(h, idle, k);
    var q := h.free[k];
    var b := q[0];
    var p := b / PGSIZE;
    var (h', r) := Take(h, k, size);
    assert b in q;
    BlockKind(h.pages, b, k);
    var cnt := h.pages[p].cnt;
    SameBlocks(h.pages, p, cnt - 1);
    PoolPut(h.used, h.pages, p, Small(k, cnt - 1));
    TailList(h.pages, q, k);
    forall j | 0 <= j < 7 ensures ListOk(h'.pages, h'.free[j], j) {
      assert ListOk(h.pages, h.free[j], j);
      ListsKept(h.pages, h'.pages, h'.free[j], j);
    }
    forall r | r in h'.pages ensures ArenaOk(h'.pages[r], h'.free, r, true) {
      assert ArenaOk(h.pages[r], h.free, r, r !in idle);
      FreeSetPush(h.pages, q[1..], q, b, k, r);
      FreeSetBound(q, r, k);
    }
    TakeLive(h, k, size);
  }

  lemma BlockKind(pages: map<nat, Holder>, b: nat, k: nat)
    requires IsBlock(pages, b, k)
    ensures b / PGSIZE in pages && pages[b / PGSIZE].Small? && pages[b / PGSIZE].k == k && k < 7 && !IsBig(pages, b)
    ensures forall j: nat :: IsBlock(pages, b, j) ==> j == k
  {
  }

  lemma TailList(pages: map<nat, Holder>, q: seq<nat>, k: nat)
    requires ListOk(pages, q, k) && q != []
    ensures ListOk(pages, q[1..], k) && q[0] !in q[1..] && forall x :: x != q[0] ==> (x in q[1..] <==> x in q)
  {
    assert q == [q[0]] + q[1..];
  }

  /** The blocks in use are those before and the one taken. */
  lemma TakeLive(h: Heap, k: nat, size: nat)
    requires |h.free| == 7 && LiveOk(h.pages, h.free, h.live) && k < 7 && h.free[k] != [] && size <= SIZES[k]
    requires ListOk(h.pages, h.free[k], k)
    requires IsBlock(h.pages, h.free[k][0], k) && h.pages[h.free[k][0] / PGSIZE].cnt > 0
    ensures var h' := Take(h, k, size).0; LiveOk(h'.pages, h'.free, h'.live) && h.free[k][0] !in h.live
  {
    hide IsBlock, IsBig;
    var q := h.free[k];
    var b := q[0];
    var h' := Take(h, k, size).0;
    BlockKind(h.pages, b, k);
    SameBlocks(h.pages, b / PGSIZE, h.pages[b / PGSIZE].cnt - 1);
    TailList(h.pages, q, k);
    assert b in q && !InUse(h.pages, h.free, b);
    assert InUse(h'.pages, h'.free, b) by { assert IsBlock(h'.pages, b, k) && b !in h'.free[k]; }
    forall x: nat | x != b ensures InUse(h'.pages, h'.free, x) <==> InUse(h.pages, h.free, x) {
      if InUse(h.pages, h.free, x) && !IsBig(h.pages, x) {
        var j: nat :| j < 7 && IsBlock(h.pages, x, j) && x !in h.free[j];
        BlockKind(h.pages, x, j);
        assert IsBlock(h'.pages, x, j) && x !in h'.free[j];
      }
      if InUse(h'.pages, h'.free, x) && !IsBig(h'.pages, x) {
        var j: nat :| j < 7 && IsBlock(h'.pages, x, j) && x !in h'.free[j];
        BlockKind(h'.pages, x, j);
        assert IsBlock(h.pages, x, j) && x !in h.free[j];
      }
    }
  }

  /** A new arena, whose blocks are all free until the first is taken. */
  lemma GrowKeeps(h: Heap, p: nat, k: nat)
    requires Inv(h) && k < 7 && h.free[k] == [] && AllAre(h.used, p, 1, false)
    ensures var h' := Grow(h, p, k);
            |h'.free| == 7 && InvWith(h', {p}) && h'.free[k] == Blocks(p, k) && h'.live == h.live && p !in h.pages
  {
    hide PoolOk, FreeSet;
    var h' := Grow(h, p, k);
    PoolAdd(h.used, h.pages, p, Small(k, PER[k]));
    assert h'.free[k] == Blocks(p, k);
    forall j | 0 <= j < 7 ensures ListOk(h'.pages, h'.free[j], j) {
      assert ListOk(h.pages, h.free[j], j);
      if j == k { NewList(h'.pages, p, k); }
    }
    forall r | r in h'.pages ensures ArenaOk(h'.pages[r], h'.free, r, r !in {p}) {
      if r != p { assert ArenaOk(h.pages[r], h.free, r, true); }
      if r == p || (h'.pages[r].Small? && h'.pages[r].k == k) { NewFreeSet(p, k, r); }
      EmptyFreeSet(r, k);
    }
    GrowLive(h, p, k);
  }

  lemma EmptyFreeSet(p: nat, k: nat)
    requires k < 7
    ensures FreeSet([], p, k) == {}
  {
  }

  lemma NewList(pages: map<nat, Holder>, p: nat, k: nat)
    requires k < 7 && p in pages && pages[p] == Small(k, PER[k])
    ensures ListOk(pages, Blocks(p, k), k)
  {
    var q := Blocks(p, k);
    forall i | 0 <= i < |q| ensures IsBlock(pages, q[i], k) && Index(q[i], k) == i { AddrIndex(p, k, i); }
  }

  lemma NewFreeSet(p: nat, k: nat, r: nat)
    requires k < 7
    ensures FreeSet(Blocks(p, k), r, k) == (if r == p then Range(PER[k]) else {})
    ensures |FreeSet(Blocks(p, k), r, k)| == (if r == p then PER[k] else 0)
  {
    var q := Blocks(p, k);
    RangeCard(PER[k]);
    forall i: nat | i < PER[k] ensures Addr(r, k, i) in q <==> r == p {
      AddrIndex(r, k, i);
      if r == p { assert q[i] == Addr(r, k, i); }
      forall j | 0 <= j < |q| ensures q[j] / PGSIZE == p { AddrIndex(p, k, j); }
    }
  }

  /** No block of the new arena is in use, and nothing else changes. */
  lemma GrowLive(h: Heap, p: nat, k: nat)
    requires |h.free| == 7 && LiveOk(h.pages, h.free, h.live) && k < 7 && h.free[k] == [] && p !in h.pages
    ensures var h' := Grow(h, p, k); LiveOk(h'.pages, h'.free, h'.live)
  {
    var h' := Grow(h, p, k);
    assert h'.free[k] == Blocks(p, k);
    forall x: nat ensures InUse(h'.pages, h'.free, x) <==> InUse(h.pages, h.free, x) {
      if x / PGSIZE == p {
        if IsBlock(h'.pages, x, k) {
          BlockAddr(h'.pages, x, k);
          assert h'.free[k][Index(x, k)] == x;
        }
      } else {
        assert forall j: nat :: IsBlock(h'.pages, x, j) <==> IsBlock(h.pages, x, j);
        NotInBlocks(p, k, x);
        if InUse(h.pages, h.free, x) && !IsBig(h.pages, x) {
          var j: nat :| j < 7 && IsBlock(h.pages, x, j) && x !in h.free[j];
          assert IsBlock(h'.pages, x, j) && x !in h'.free[j];
        }
        if InUse(h'.pages, h'.free, x) && !IsBig(h'.pages, x) {
          var j: nat :| j < 7 && IsBlock(h'.pages, x, j) && x !in h'.free[j];
          assert IsBlock(h.pages, x, j) && x !in h.free[j];
        }
      }
    }
  }

  lemma NotInBlocks(p: nat, k: nat, x: nat)
    requires k < 7 && x / PGSIZE != p
    ensures x !in Blocks(p, k)
  {
    var q := Blocks(p, k);
    forall j | 0 <= j < |q| ensures q[j] / PGSIZE == p { AddrIndex(p, k, j); }
  }

  /** A big block: its pages are all its own, and hold the request unless it wrapped around. */
  lemma BigKeeps(h: Heap, p: nat, size: nat)
    requires Inv(h) && BigPages(size) > 0 && AllAre(h.used, p, BigPages(size), false) && size < WORD
    ensures var n := BigPages(size); var b := p * PGSIZE + HEADER;
            var h' := h.(used := SetRange(h.used, p, n, true), pages := h.pages[p := Big(n)],
                live := h.live[b := size]);
            Inv(h') && b !in h.live && p !in h.pages
  {
    hide PoolOk, FreeSet;
    var n := BigPages(size);
    var b := p * PGSIZE + HEADER;
    var h' := h.(used := SetRange(h.used, p, n, true), pages := h.pages[p := Big(n)], live := h.live[b := size]);
    PoolAdd(h.used, h.pages, p, Big(n));
    assert b / PGSIZE == p && b % PGSIZE == HEADER;
    forall j | 0 <= j < 7 ensures ListOk(h'.pages, h'.free[j], j) {
      assert ListOk(h.pages, h.free[j], j);
      ListsKept(h.pages, h'.pages, h.free[j], j);
    }
    forall r | r in h'.pages ensures ArenaOk(h'.pages[r], h'.free, r, true) {
      if r != p { assert ArenaOk(h.pages[r], h.free, r, true); }
    }
    BigFitsIff(size);
    BigLive(h, p, size);
  }

  lemma BigLive(h: Heap, p: nat, size: nat)
    requires |h.free| == 7 && LiveOk(h.pages, h.free, h.live) && p !in h.pages && BigPages(size) > 0
    requires size <= PGSIZE * BigPages(size) - HEADER || size >= WORD - 11
    ensures var b := p * PGSIZE + HEADER;
            LiveOk(h.pages[p := Big(BigPages(size))], h.free, h.live[b := size]) && b !in h.live
  {
    var b := p * PGSIZE + HEADER;
    var pages', live' := h.pages[p := Big(BigPages(size))], h.live[b := size];
    assert b / PGSIZE == p && b % PGSIZE == HEADER;
    forall x: nat ensures InUse(pages', h.free, x) <==> x == b || InUse(h.pages, h.free, x) {
      if x / PGSIZE == p {
        assert IsBig(pages', x) <==> x == b;
      } else {
        assert forall j: nat :: IsBlock(pages', x, j) <==> IsBlock(h.pages, x, j);
      }
    }
  }

  /**
   Pages for a big block hold the request exactly up to the size where adding the header wraps around;
   just below that size no pages are asked for at all.
   */
  lemma BigFitsIff(size: nat)
    requires size < WORD
    ensures BigPages(size) > 0 ==> (size <= PGSIZE * BigPages(size) - HEADER <==> size < WORD - 11)
    ensures BigPages(size) == 0 <==> WORD - 4107 <= size < WORD - 11
    ensures size >= WORD - 11 ==> BigPages(size) == 1
  {
  }

  /** Descriptor `k` is the smallest that serves a request. */
  predicate Serves(k: nat, size: nat) {
    k < 7 && size <= SIZES[k] && (k > 0 ==> SIZES[k - 1] < size)
  }

  /** The `n` pages from page `p` on are free. */
  predicate RunFree(used: seq<bool>, n: nat, p: nat) {
    p + n <= |used| && forall q :: p <= q < p + n ==> !used[q]
  }

  /**
   When there is no memory: for a request of nothing, for a small one without a free block of its size and without
   a free page, and for a larger one, rounded up in 32 bits, without as many free pages in a row.
   */
  ghost predicate NoMemory(h: Heap, size: nat)
    requires |h.free| == 7
  {
    || size == 0
    || (exists k: nat :: Serves(k, size) && h.free[k] == [] && forall q :: 0 <= q < |h.used| ==> h.used[q])
    || (size > 1024 && NoRun(h.used, (size + 4107) % 0x1_0000_0000 / 4096))
  }

  ghost predicate NoRun(used: seq<bool>, n: nat) { n == 0 || forall p: nat :: !RunFree(used, n, p) }

  lemma SizesGrow(j: nat, k: nat)
    requires j <= k < 7
    ensures SIZES[j] <= SIZES[k] <= 1024 && SIZES[6] == 1024
  {
  }

  lemma FitServes(size: nat, k: nat)
    ensures Fit(size, 0) == Some(k) <==> Serves(k, size)
    ensures Fit(size, 0).None? <==> size > 1024
  {
    var r := Fit(size, 0);
    assert SIZES[6] == 1024;
    if r.Some? { SizesGrow(r.value, 6); }
    if Serves(k, size) {
      SizesGrow(k, 6);
      if r.value < k { SizesGrow(r.value, k - 1); }
    }
  }

  lemma ScanRun(used: seq<bool>, n: nat)
    ensures Scan(used, 0, n, false).None? <==> forall p: nat :: !RunFree(used, n, p)
    ensures Scan(used, 0, n, false).Some? ==> Lowest(used, n, Scan(used, 0, n, false).value)
  {
    forall p: nat ensures RunFree(used, n, p) <==> AllAre(used, p, n, false) {}
    var r := Scan(used, 0, n, false);
    if r.Some? { assert RunFree(used, n, r.value); }
  }

  /** Page `p` starts the lowest free run of `n` pages. */
  ghost predicate Lowest(used: seq<bool>, n: nat, p: nat) {
    RunFree(used, n, p) && forall p': nat :: p' < p ==> !RunFree(used, n, p')
  }

  /** `malloc` returns a null pointer exactly when there is no memory. */
  lemma AllocFailsIff(h: Heap, size: nat)
    requires Inv(h)
    ensures |h.free| == 7 && (Alloc(h, size).1.None? <==> NoMemory(h, size))
  {
    hide InvWith, Fit, Serves, Grow, RunFree;
    FreeListCount(h);
    var r := Fit(size, 0);
    if size == 0 {
    } else if r.None? {
      FitServes(size, 0);
      ScanRun(h.used, BigPages(size));
      assert NoMemory(h, size) <==> NoRun(h.used, BigPages(size)) by {
        forall k: nat ensures !Serves(k, size) { FitServes(size, k); }
      }
    } else {
      SmallFailsIff(h, size, r.value);
    }
  }

  lemma SmallFailsIff(h: Heap, size: nat, k: nat)
    requires Inv(h) && size > 0 && Fit(size, 0) == Some(k)
    ensures |h.free| == 7 && (Alloc(h, size).1.None? <==> NoMemory(h, size))
  {
    hide InvWith, Fit, Serves;
    FreeListCount(h);
    forall j: nat ensures Serves(j, size) <==> j == k { FitServes(size, j); }
    FitServes(size, k);
    if h.free[k] != [] {
      FrontBlock(h, {}, k);
      BlockKind(h.pages, h.free[k][0], k);
    } else {
      var sc := Scan(h.used, 0, 1, false);
      ScanRun(h.used, 1);
      if sc.Some? {
        assert RunFree(h.used, 1, sc.value) && !h.used[sc.value];
        AddrIndex(sc.value, k, 0);
        assert Blocks(sc.value, k)[0] == Addr(sc.value, k, 0);
      } else {
        forall q | 0 <= q < |h.used| ensures h.used[q] { assert !RunFree(h.used, 1, q); }
      }
    }
  }

  /** `malloc` keeps the invariant; the block it returns was not in use, and is the only change in use. */
  lemma AllocKeeps(h: Heap, size: nat)
    requires Inv(h) && size < WORD
    ensures var (h', r) := Alloc(h, size);
            && Inv(h') && (r.None? <==> NoMemory(h, size))
            && (match r case None => h' == h case Some(b) => b !in h.live && h'.live == h.live[b := size])
  {
    hide InvWith, Take, Grow, BigPages, NoMemory;
    FreeListCount(h);
    AllocFailsIff(h, size);
    if size > 0 {
      match Fit(size, 0)
      case Some(k) =>
        if h.free[k] != [] {
          TakeKeeps(h, {}, k, size);
        } else {
          var sc := Scan(h.used, 0, 1, false);
          if sc.Some? {
            GrowKeeps(h, sc.value, k);
            var g := Grow(h, sc.value, k);
            AddrIndex(sc.value, k, 0);
            assert g.free[k][0] == Addr(sc.value, k, 0);
            TakeKeeps(g, {sc.value}, k, size);
          }
        }
      case None =>
        var n := BigPages(size);
        if n > 0 {
          var sc := Scan(h.used, 0, n, false);
          if sc.Some? { BigKeeps(h, sc.value, size); }
        }
    }
  }

  /** From a free list `malloc` hands out the first block, and takes no page. */
  lemma AllocFromList(h: Heap, size: nat, k: nat)
    requires Inv(h) && size > 0 && Serves(k, size) && |h.free| == 7 && h.free[k] != []
    ensures var (h', r) := Alloc(h, size);
            r == Some(h.free[k][0]) && h'.used == h.used && h'.free == h.free[k := h.free[k][1..]]
  {
    hide InvWith, Fit, Serves;
    FitServes(size, k);
    FrontBlock(h, {}, k);
    BlockKind(h.pages, h.free[k][0], k);
  }

  /** With its list empty it takes the lowest free page, hands out its first block and lists the others. */
  lemma AllocFromPage(h: Heap, size: nat, k: nat)
    requires Inv(h) && size > 0 && Serves(k, size) && |h.free| == 7 && h.free[k] == [] && Alloc(h, size).1.Some?
    ensures var (h', r) := Alloc(h, size); var p := r.value / PGSIZE;
            && r.value == p * PGSIZE + 12 && Lowest(h.used, 1, p) && h'.used == h.used[p := true]
            && |h'.free| == 7 && (forall j :: 0 <= j < 7 && j != k ==> h'.free[j] == h.free[j])
            && |h'.free[k]| == PER[k] - 1
            && forall i :: 0 <= i < PER[k] - 1 ==> h'.free[k][i] == p * PGSIZE + 12 + (i + 1) * SIZES[k]
  {
    hide InvWith, Fit, Serves, Addr, Alloc, Lowest;
    FitServes(size, k);
    var p := TakesPage(h, size, k);
    AddrIndex(p, k, 0);
    AddrIs(p, k, 0);
    var h' := Alloc(h, size).0;
    forall i | 0 <= i < PER[k] - 1 ensures h'.free[k][i] == p * PGSIZE + 12 + (i + 1) * SIZES[k] {
      AddrIs(p, k, i + 1);
    }
  }

  lemma AddrIs(p: nat, k: nat, i: nat)
    requires k < 7
    ensures Addr(p, k, i) == p * PGSIZE + 12 + i * SIZES[k]
  {
  }

  lemma TakesPage(h: Heap, size: nat, k: nat) returns (p: nat)
    requires size > 0 && k < 7 && Fit(size, 0) == Some(k) && |h.free| == 7 && h.free[k] == []
    requires Alloc(h, size).1.Some?
    ensures var (h', r) := Alloc(h, size);
            && r.value == Addr(p, k, 0) && Lowest(h.used, 1, p) && h'.used == h.used[p := true]
            && h'.free == h.free[k := Blocks(p, k)[1..]]
  {
    hide Fit, Addr, Blocks, Lowest;
    ScanRun(h.used, 1);
    p := Scan(h.used, 0, 1, false).value;
    assert h.free[k] + Blocks(p, k) == Blocks(p, k);
  }

  /** For a larger request it takes exactly the lowest free run of as many pages as it needs. */
  lemma AllocFromRun(h: Heap, size: nat)
    requires Inv(h) && size > 1024 && |h.free| == 7 && Alloc(h, size).1.Some?
    ensures var (h', r) := Alloc(h, size); var p := r.value / PGSIZE; var n := (size + 4107) % 0x1_0000_0000 / 4096;
            && r.value == p * PGSIZE + 12 && n > 0 && Lowest(h.used, n, p) && h'.free == h.free
            && |h'.used| == |h.used|
            && forall q :: 0 <= q < |h.used| ==> (h'.used[q] <==> h.used[q] || p <= q < p + n)
  {
    hide InvWith, Fit, RunFree;
    FitServes(size, 0);
    ScanRun(h.used, BigPages(size));
    InPage(Scan(h.used, 0, BigPages(size), false).value, 12);
  }

  /** A block freed while another of its arena is in use is the next one handed out of its size. */
  lemma FreedFirst(h: Heap, b: nat, c: nat, size: nat)
    requires Inv(h) && b in h.live && c in h.live && b != c && b / PGSIZE == c / PGSIZE && size > 0
    requires b / PGSIZE in h.pages && h.pages[b / PGSIZE].Small? && Serves(h.pages[b / PGSIZE].k, size)
    ensures |h.free| == 7 && |Free(h, b).free| == 7 && Alloc(Free(h, b), size).1 == Some(b)
  {
    hide InvWith, Serves, Alloc;
    FreeListCount(h);
    FreeKeeps(h, b);
    PageReturnedIff(h, b);
    var k := h.pages[b / PGSIZE].k;
    assert Free(h, b).free[k][0] == b by { assert Free(h, b).free[k] == [b] + h.free[k]; }
    AllocFromList(Free(h, b), size, k);
  }

  lemma FreeListCount(h: Heap)
    requires Inv(h)
    ensures |h.free| == 7
  {
  }

  // --------------------------------------------------------------------- free

  lemma LiveBlock(h: Heap, b: nat)
    requires Inv(h) && b in h.live
    ensures b / PGSIZE in h.pages && !h.pages[b / PGSIZE].Other?
    ensures match h.pages[b / PGSIZE]
            case Small(k, cnt) => k < 7 && IsBlock(h.pages, b, k) && b !in h.free[k]
              && cnt == |FreeSet(h.free[k], b / PGSIZE, k)|
            case Big(_) => IsBig(h.pages, b)
            case Other(_) => true
  {
    assert InUse(h.pages, h.free, b);
    assert ArenaOk(h.pages[b / PGSIZE], h.free, b / PGSIZE, true);
  }

  /** A block returned to an arena that still has others in use. */
  lemma PutBackKeeps(h: Heap, b: nat, k: nat)
    requires Inv(h) && b in h.live && IsBlock(h.pages, b, k) && h.pages[b / PGSIZE].cnt + 1 < PER[k]
    ensures Inv(Free(h, b))
  {
    hide PoolOk, FreeSet, IsBlock;
    LiveBlock(h, b);
    BlockKind(h.pages, b, k);
    var p := b / PGSIZE;
    var cnt := h.pages[p].cnt;
    var h' := Free(h, b);
    var q := h.free[k];
    PoolPut(h.used, h.pages, p, Small(k, cnt + 1));
    SameBlocks(h.pages, p, cnt + 1);
    assert ListOk(h.pages, q, k);
    PushList(h.pages, q, b, k);
    forall j | 0 <= j < 7 ensures ListOk(h'.pages, h'.free[j], j) {
      assert ListOk(h.pages, h.free[j], j);
      ListsKept(h.pages, h'.pages, h'.free[j], j);
    }
    forall r | r in h'.pages ensures ArenaOk(h'.pages[r], h'.free, r, true) {
      assert ArenaOk(h.pages[r], h.free, r, true);
      FreeSetPush(h.pages, q, [b] + q, b, k, r);
    }
    PutBackLive(h, b, k);
  }

  lemma PushList(pages: map<nat, Holder>, q: seq<nat>, b: nat, k: nat)
    requires ListOk(pages, q, k) && IsBlock(pages, b, k) && b !in q
    ensures ListOk(pages, [b] + q, k) && b in [b] + q && forall x :: x != b ==> (x in [b] + q <==> x in q)
  {
  }

  lemma PutBackLive(h: Heap, b: nat, k: nat)
    requires |h.free| == 7 && LiveOk(h.pages, h.free, h.live) && b in h.live && IsBlock(h.pages, b, k)
    requires h.pages[b / PGSIZE].cnt + 1 < PER[k]
    ensures var h' := Free(h, b); LiveOk(h'.pages, h'.free, h'.live)
  {
    hide IsBlock, IsBig;
    BlockKind(h.pages, b, k);
    var h' := Free(h, b);
    SameBlocks(h.pages, b / PGSIZE, h.pages[b / PGSIZE].cnt + 1);
    assert h'.free[k] == [b] + h.free[k] && b in h'.free[k];
    forall x: nat ensures InUse(h'.pages, h'.free, x) <==> x != b && InUse(h.pages, h.free, x) {
      if x != b && InUse(h.pages, h.free, x) && !IsBig(h.pages, x) {
        var j: nat :| j < 7 && IsBlock(h.pages, x, j) && x !in h.free[j];
        assert IsBlock(h'.pages, x, j) && x !in h'.free[j];
      }
      if InUse(h'.pages, h'.free, x) && !IsBig(h'.pages, x) {
        var j: nat :| j < 7 && IsBlock(h'.pages, x, j) && x !in h'.free[j];
        BlockKind(h'.pages, x, j);
        assert IsBlock(h.pages, x, j) && x !in h.free[j];
      }
    }
  }

  /** When the count says so, every other block of the arena is free. */
  lemma LastBlock(h: Heap, b: nat, k: nat, x: nat)
    requires Inv(h) && b in h.live && IsBlock(h.pages, b, k) && h.pages[b / PGSIZE].cnt + 1 >= PER[k]
    requires x in h.live && x / PGSIZE == b / PGSIZE
    ensures x == b
  {
    LiveBlock(h, b);
    LiveBlock(h, x);
    var p, q := b / PGSIZE, h.free[k];
    FreeSetPush(h.pages, q, [b] + q, b, k, p);
    FreeSetBound([b] + q, p, k);
    BlockAddr(h.pages, x, k);
    assert Index(x, k) in Range(PER[k]);
  }

  /** Conversely, when every other block is free the count says so. */
  lemma OnlyBlock(h: Heap, b: nat, k: nat)
    requires Inv(h) && b in h.live && IsBlock(h.pages, b, k)
    requires forall x :: x in h.live && x / PGSIZE == b / PGSIZE ==> x == b
    ensures h.pages[b / PGSIZE].cnt + 1 >= PER[k]
  {
    LiveBlock(h, b);
    var p, q := b / PGSIZE, h.free[k];
    forall i: nat | i < PER[k] ensures Addr(p, k, i) in [b] + q {
      AddrIndex(p, k, i);
      var x := Addr(p, k, i);
      assert IsBlock(h.pages, x, k);
      if x !in q { assert InUse(h.pages, h.free, x); }
    }
    assert FreeSet([b] + q, p, k) == Range(PER[k]);
    RangeCard(PER[k]);
    FreeSetPush(h.pages, q, [b] + q, b, k, p);
  }

  /** The last block of an arena returned: the arena is dissolved. */
  lemma DissolveKeeps(h: Heap, b: nat, k: nat)
    requires Inv(h) && b in h.live && IsBlock(h.pages, b, k) && h.pages[b / PGSIZE].cnt + 1 >= PER[k]
    ensures Inv(Free(h, b))
  {
    hide PoolOk, FreeSet;
    LiveBlock(h, b);
    var p, q := b / PGSIZE, h.free[k];
    var h' := Free(h, b);
    PoolRemove(h.used, h.pages, p);
    assert ListOk(h.pages, q, k);
    PushList(h.pages, q, b, k);
    WithoutDistinct([b] + q, p);
    forall j | 0 <= j < 7 ensures ListOk(h'.pages, h'.free[j], j) {
      assert ListOk(h.pages, h.free[j], j);
    }
    forall r | r in h'.pages ensures ArenaOk(h'.pages[r], h'.free, r, true) {
      assert ArenaOk(h.pages[r], h.free, r, true);
      FreeSetElsewhere(q, h'.free[k], r, k);
    }
    forall x | x in h.live && x / PGSIZE == p ensures x == b { LastBlock(h, b, k, x); }
    GoneLive(h, h', p, b);
  }

  /** A run given back takes its one live block with it and no other. */
  lemma GoneLive(h: Heap, h': Heap, p: nat, b: nat)
    requires |h.free| == 7 && |h'.free| == 7 && LiveOk(h.pages, h.free, h.live) && b in h.live && b / PGSIZE == p
    requires h'.pages == h.pages - {p} && h'.live == h.live - {b}
    requires forall x :: x in h.live && x / PGSIZE == p ==> x == b
    requires forall j, x :: 0 <= j < 7 && x / PGSIZE != p ==> (x in h'.free[j] <==> x in h.free[j])
    ensures LiveOk(h'.pages, h'.free, h'.live)
  {
    forall x: nat ensures InUse(h'.pages, h'.free, x) <==> x in h'.live {
      if x / PGSIZE != p {
        assert forall j: nat :: IsBlock(h'.pages, x, j) <==> IsBlock(h.pages, x, j);
        if InUse(h.pages, h.free, x) && !IsBig(h.pages, x) {
          var j: nat :| j < 7 && IsBlock(h.pages, x, j) && x !in h.free[j];
          assert IsBlock(h'.pages, x, j) && x !in h'.free[j];
        }
        if InUse(h'.pages, h'.free, x) && !IsBig(h'.pages, x) {
          var j: nat :| j < 7 && IsBlock(h'.pages, x, j) && x !in h'.free[j];
          assert IsBlock(h.pages, x, j) && x !in h.free[j];
        }
      }
    }
  }

  lemma FreeBigKeeps(h: Heap, b: nat)
    requires Inv(h) && b in h.live && IsBig(h.pages, b)
    ensures Inv(Free(h, b))
  {
    hide PoolOk, FreeSet;
    var p := b / PGSIZE;
    var h' := Free(h, b);
    PoolRemove(h.used, h.pages, p);
    forall j | 0 <= j < 7 ensures ListOk(h'.pages, h'.free[j], j) {
      assert ListOk(h.pages, h.free[j], j);
      ListsKept(h.pages, h'.pages, h.free[j], j);
    }
    forall r | r in h'.pages
      ensures ArenaOk(h'.pages[r], h'.free, r, true) { assert ArenaOk(h.pages[r], h.free, r, true); }
    forall x | x in h.live && x / PGSIZE == p ensures x == b {
      LiveBlock(h, x);
      assert x == p * PGSIZE + x % PGSIZE;
    }
    GoneLive(h, h', p, b);
  }

  /** `free` of a live block keeps the invariant. */
  lemma FreeKeeps(h: Heap, b: nat)
    requires Inv(h) && b in h.live
    ensures |h.free| == 7 && Inv(Free(h, b)) && Free(h, b).live == h.live - {b}
  {
    hide InvWith, PoolOk;
    FreeListCount(h);
    LiveBlock(h, b);
    match h.pages[b / PGSIZE]
    case Small(k, cnt) => if cnt + 1 < PER[k] { PutBackKeeps(h, b, k); } else { DissolveKeeps(h, b, k); }
    case Big(_) => FreeBigKeeps(h, b);
  }

  /** A page goes back to the page allocator exactly when the last live block in it is freed. */
  lemma PageReturnedIff(h: Heap, b: nat)
    requires Inv(h) && b in h.live
    ensures |h.free| == 7 && b / PGSIZE in h.pages && b / PGSIZE + Span(h.pages[b / PGSIZE]) <= |h.used|
    ensures var p := b / PGSIZE; var h' := Free(h, b);
            && (p !in h'.pages <==> forall x :: x in h.live && x / PGSIZE == p ==> x == b)
            && (p in h'.pages ==> h'.used == h.used)
            && (p !in h'.pages ==> h'.used == SetRange(h.used, p, Span(h.pages[p]), false) && h'.pages == h.pages - {p})
  {
    hide IsBlock, FreeSet;
    LiveBlock(h, b);
    var p := b / PGSIZE;
    match h.pages[p]
    case Small(k, cnt) =>
      if cnt + 1 < PER[k] {
        if forall x :: x in h.live && x / PGSIZE == p ==> x == b { OnlyBlock(h, b, k); }
      } else {
        forall x | x in h.live && x / PGSIZE == p ensures x == b { LastBlock(h, b, k, x); }
      }
    case Big(_) =>
      forall x | x in h.live && x / PGSIZE == p ensures x == b {
        LiveBlock(h, x);
        assert x == p * PGSIZE + x % PGSIZE;
      }
  }

  // -------------------------------------------------------------------- space

  predicate Apart(b: int, m: int, c: int, n: int) { b + m <= c || c + n <= b }

  /** A live block lies in the pages of its own run, behind the header. */
  lemma InsideRun(h: Heap, b: nat)
    requires Inv(h) && b in h.live
    ensures var p := b / PGSIZE;
            && p in h.pages && (h.pages[p].Small? ==> h.pages[p].k < 7)
            && p * PGSIZE + HEADER <= b && b + Capacity(h.pages, b) <= (p + Span(h.pages[p])) * PGSIZE
  {
    LiveBlock(h, b);
    if h.pages[b / PGSIZE].Small? {
      var k := h.pages[b / PGSIZE].k;
      BlockAddr(h.pages, b, k);
      AddrIndex(b / PGSIZE, k, Index(b, k));
    }
  }

  /** Different blocks of one arena do not overlap. */
  lemma SlotsApart(p: nat, k: nat, i: nat, j: nat)
    requires k < 7 && i < j < PER[k]
    ensures Addr(p, k, i) + SIZES[k] <= Addr(p, k, j)
  {
    assert (i + 1) * SIZES[k] <= j * SIZES[k];
  }

  lemma BlocksApart(pages: map<nat, Holder>, b: nat, c: nat, k: nat)
    requires IsBlock(pages, b, k) && IsBlock(pages, c, k) && b / PGSIZE == c / PGSIZE && b != c
    ensures Apart(b, SIZES[k], c, SIZES[k])
  {
    BlockAddr(pages, b, k);
    BlockAddr(pages, c, k);
    if Index(b, k) < Index(c, k) { SlotsApart(b / PGSIZE, k, Index(b, k), Index(c, k)); }
    else if Index(c, k) < Index(b, k) { SlotsApart(b / PGSIZE, k, Index(c, k), Index(b, k)); }
  }

  /** Runs of pages do not overlap. */
  lemma RunsApart(h: Heap, p: nat, r: nat)
    requires Inv(h) && p in h.pages && r in h.pages && p != r
    ensures p + Span(h.pages[p]) <= r || r + Span(h.pages[r]) <= p
  {
    hide LiveOk;
    if p < r {
      assert InRun(h.pages, r, r);
      assert !InRun(h.pages, p, r);
    } else {
      assert InRun(h.pages, p, p);
      assert !InRun(h.pages, r, p);
    }
  }

  /** Live blocks overlap neither each other, nor free blocks, nor arena headers, nor pages of other clients. */
  lemma LiveBlocksApart(h: Heap, b: nat, c: nat)
    requires Inv(h) && b in h.live && c in h.live && b != c
    ensures b / PGSIZE in h.pages && c / PGSIZE in h.pages
    ensures h.pages[b / PGSIZE].Small? ==> h.pages[b / PGSIZE].k < 7
    ensures h.pages[c / PGSIZE].Small? ==> h.pages[c / PGSIZE].k < 7
    ensures Apart(b, Capacity(h.pages, b), c, Capacity(h.pages, c))
  {
    hide InvWith, PoolOk;
    InsideRun(h, b);
    InsideRun(h, c);
    LiveBlock(h, b);
    LiveBlock(h, c);
    if b / PGSIZE == c / PGSIZE {
      SameRunApart(h, b, c);
    } else {
      RunsApart(h, b / PGSIZE, c / PGSIZE);
    }
  }

  lemma SameRunApart(h: Heap, b: nat, c: nat)
    requires Inv(h) && b in h.live && c in h.live && b != c && b / PGSIZE == c / PGSIZE && b / PGSIZE in h.pages
    ensures h.pages[b / PGSIZE].Small? && h.pages[b / PGSIZE].k < 7
    ensures Apart(b, SIZES[h.pages[b / PGSIZE].k], c, SIZES[h.pages[b / PGSIZE].k])
  {
    hide InvWith;
    LiveBlock(h, b);
    LiveBlock(h, c);
    if h.pages[b / PGSIZE].Small? { BlocksApart(h.pages, b, c, h.pages[b / PGSIZE].k); }
  }

  lemma LiveApartFromFree(h: Heap, b: nat, k: nat, f: nat)
    requires Inv(h) && b in h.live && k < 7 && f in h.free[k]
    ensures b / PGSIZE in h.pages && (h.pages[b / PGSIZE].Small? ==> h.pages[b / PGSIZE].k < 7)
    ensures Apart(b, Capacity(h.pages, b), f, SIZES[k])
  {
    hide PoolOk;
    InsideRun(h, b);
    LiveBlock(h, b);
    assert ListOk(h.pages, h.free[k], k) && IsBlock(h.pages, f, k);
    BlockAddr(h.pages, f, k);
    AddrIndex(f / PGSIZE, k, Index(f, k));
    if b / PGSIZE == f / PGSIZE { BlocksApart(h.pages, b, f, k); } else { RunsApart(h, b / PGSIZE, f / PGSIZE); }
  }

  lemma LiveApartFromHeaders(h: Heap, b: nat, p: nat)
    requires Inv(h) && b in h.live && p in h.pages
    ensures b / PGSIZE in h.pages && (h.pages[b / PGSIZE].Small? ==> h.pages[b / PGSIZE].k < 7)
    ensures Apart(b, Capacity(h.pages, b), p * PGSIZE, if h.pages[p].Other? then Span(h.pages[p]) * PGSIZE else HEADER)
  {
    hide InvWith, PoolOk;
    InsideRun(h, b);
    LiveBlock(h, b);
    RunSpan(h, p);
    if b / PGSIZE != p { RunsApart(h, b / PGSIZE, p); }
  }

  lemma RunSpan(h: Heap, p: nat)
    requires Inv(h) && p in h.pages
    ensures Span(h.pages[p]) > 0
  {
  }

  // --------------------------------------------------------------------- runs

  /** Calls of the block allocator, and of the page allocator by others. */
  datatype Event = Malloc(size: nat) | FreeBlock(b: nat) | GetPages(n: nat) | FreePages(p: nat)

  /** Requests are machine words; what is freed was allocated. */
  predicate Enabled(h: Heap, e: Event) {
    match e
    case Malloc(size) => size < WORD
    case FreeBlock(b) => b in h.live
    case GetPages(n) => n < WORD
    case FreePages(p) => p in h.pages && h.pages[p].Other?
  }

  /** `palloc_get_multiple`, for someone else. */
  function GetMultiple(h: Heap, n: nat): (r: Heap) {
    if n == 0 then h
    else match Scan(h.used, 0, n, false)
      case None => h
      case Some(p) => h.(used := SetRange(h.used, p, n, true), pages := h.pages[p := Other(n)])
  }

  /** Pages for someone else are the lowest free run of as many, or none if there is no such run. */
  lemma GetTakesLowest(h: Heap, n: nat) returns (p: nat)
    ensures var h' := GetMultiple(h, n);
            if NoRun(h.used, n) then h' == h
            else
              && Lowest(h.used, n, p) && h' == h.(used := h'.used, pages := h.pages[p := Other(n)])
              && |h'.used| == |h.used|
              && forall q :: 0 <= q < |h.used| ==> (h'.used[q] <==> h.used[q] || p <= q < p + n)
  {
    hide RunFree;
    ScanRun(h.used, n);
    var r := Scan(h.used, 0, n, false);
    p := if r.Some? then r.value else 0;
  }

  /** `palloc_free_multiple`, by someone else. */
  function FreeMultiple(h: Heap, p: nat): (r: Heap)
    requires p in h.pages
  {
    h.(used := SetRange(h.used, p, Span(h.pages[p]), false), pages := h.pages - {p})
  }

  function Step(h: Heap, e: Event): (r: Heap)
    requires |h.free| == 7 && Enabled(h, e)
  {
    match e
    case Malloc(size) => Alloc(h, size).0
    case FreeBlock(b) => Free(h, b)
    case GetPages(n) => GetMultiple(h, n)
    case FreePages(p) => FreeMultiple(h, p)
  }

  /** Pages of others matter to no block. */
  lemma OtherKeeps(h: Heap, h': Heap, p: nat)
    requires Inv(h) && h'.free == h.free && h'.live == h.live && PoolOk(h'.used, h'.pages)
    requires forall r :: r != p ==> (r in h'.pages <==> r in h.pages) && (r in h.pages ==> h'.pages[r] == h.pages[r])
    requires (p in h.pages ==> h.pages[p].Other?) && (p in h'.pages ==> h'.pages[p].Other?)
    ensures Inv(h')
  {
    hide PoolOk, FreeSet;
    forall j | 0 <= j < 7 ensures ListOk(h'.pages, h'.free[j], j) {
      assert ListOk(h.pages, h.free[j], j);
      ListsKept(h.pages, h'.pages, h.free[j], j);
    }
    forall r | r in h'.pages ensures ArenaOk(h'.pages[r], h'.free, r, true) {
      if r != p { assert ArenaOk(h.pages[r], h.free, r, true); }
    }
    forall x: nat ensures InUse(h'.pages, h'.free, x) <==> InUse(h.pages, h.free, x) {
      assert forall j: nat :: IsBlock(h'.pages, x, j) <==> IsBlock(h.pages, x, j);
    }
    forall x | x in h.live ensures Fits(h'.pages, x, h'.live[x]) {
      assert InUse(h.pages, h.free, x) && Fits(h.pages, x, h.live[x]);
    }
  }

  /** Every call keeps the invariant. */
  lemma StepKeepsInv(h: Heap, e: Event)
    requires Inv(h) && Enabled(h, e)
    ensures |h.free| == 7 && Inv(Step(h, e))
  {
    FreeListCount(h);
    match e
    case Malloc(size) => AllocKeeps(h, size);
    case FreeBlock(b) => FreeKeeps(h, b);
    case GetPages(n) =>
      var sc := Scan(h.used, 0, n, false);
      if n > 0 && sc.Some? {
        PoolAdd(h.used, h.pages, sc.value, Other(n));
        OtherKeeps(h, GetMultiple(h, n), sc.value);
      }
    case FreePages(p) =>
      PoolRemove(h.used, h.pages, p);
      OtherKeeps(h, FreeMultiple(h, p), p);
  }

  predicate Legal(h: Heap, es: seq<Event>)
    decreases |es|
  {
    es == [] || (|h.free| == 7 && Enabled(h, es[0]) && Legal(Step(h, es[0]), es[1..]))
  }

  function Run(h: Heap, es: seq<Event>): (r: Heap)
    requires Legal(h, es)
    decreases |es|
  {
    if es == [] then h else Run(Step(h, es[0]), es[1..])
  }

  /** `malloc_init` over an empty pool. */
  function Boot(n: nat): (h: Heap) {
    Heap(seq(n, _ => false), map[], [[], [], [], [], [], [], []], map[])
  }

  lemma BootIsInv(n: nat)
    ensures Inv(Boot(n))
  {
  }

  lemma {:induction false} RunKeepsInv(h: Heap, es: seq<Event>)
    requires Inv(h) && Legal(h, es)
    ensures Inv(Run(h, es))
    decreases |es|
  {
    hide InvWith, Step, Enabled;
    if es != [] {
      StepKeepsInv(h, es[0]);
      RunKeepsInv(Step(h, es[0]), es[1..]);
    }
  }

  /**
   In every run from boot, a live block is at least as large as was asked for unless the request wrapped
   around, and two live blocks do not overlap.
   */
  lemma LiveBlocksSound(n: nat, es: seq<Event>, b: nat, c: nat)
    requires Legal(Boot(n), es) && b in Run(Boot(n), es).live && c in Run(Boot(n), es).live
    ensures var h := Run(Boot(n), es); b / PGSIZE in h.pages && c / PGSIZE in h.pages
    ensures var h := Run(Boot(n), es);
            (h.pages[b / PGSIZE].Small? ==> h.pages[b / PGSIZE].k < 7)
                && (h.pages[c / PGSIZE].Small? ==> h.pages[c / PGSIZE].k < 7)
    ensures var h := Run(Boot(n), es);
            && (h.live[b] <= Capacity(h.pages, b) || h.live[b] >= WORD - 11)
            && (b != c ==> Apart(b, Capacity(h.pages, b), c, Capacity(h.pages, c)))
  {
    hide PoolOk, ListOk, ArenaOk;
    BootIsInv(n);
    RunKeepsInv(Boot(n), es);
    var h := Run(Boot(n), es);
    assert Fits(h.pages, b, h.live[b]) && Fits(h.pages, c, h.live[c]);
    if b != c { LiveBlocksApart(h, b, c); }
  }

  /** The block `malloc` returns holds what was asked for, except for requests that wrap around, which get less. */
  lemma AllocFitsIff(h: Heap, size: nat)
    requires Inv(h) && size < WORD && |h.free| == 7 && Alloc(h, size).1.Some?
    ensures var (h', r) := Alloc(h, size);
            && r.value / PGSIZE in h'.pages && (h'.pages[r.value / PGSIZE].Small? ==> h'.pages[r.value / PGSIZE].k < 7)
            && (size <= Capacity(h'.pages, r.value) <==> size < WORD - 11)
  {
    hide PoolOk, ListOk, ArenaOk, Take, Grow;
    AllocKeeps(h, size);
    var (h', r) := Alloc(h, size);
    assert r.value in h'.live && Fits(h'.pages, r.value, h'.live[r.value]);
    if size >= WORD - 11 {
      BigFitsIff(size);
    }
  }

  /** With one free page, a request for all but one of 2^32 bytes is granted a block of 4084. */
  lemma WrappedRequest()
    ensures var (h, r) := Alloc(Boot(1), 0xffff_ffff);
            r == Some(HEADER) && 0 in h.pages && h.pages[0] == Big(1) && Capacity(h.pages, HEADER) == 4084
  {
    hide Take, Grow;
    var used := Boot(1).used;
    assert Fit(0xffff_ffff, 0).None?;
    assert BigPages(0xffff_ffff) == 1;
    assert AllAre(used, 0, 1, false);
    assert Scan(used, 0, 1, false) == Some(0);
  }
}
