/**
 The swap disk (vm/swap.c): a first-fit allocator over a sorted list of free
 extents that are split on allocation and coalesced on release, and the copying
 of page frames to and from eight-sector slots.

 A slot that has been written and not yet read back is *taken*.  The invariant
 `Valid` says that the free list is the sorted list of maximal runs of exactly
 the sectors that no taken slot covers.
 */
module Swap {
  import opened Base

  const SECTORS_PER_FRAME: nat := 8

  /** `struct free_swap_slot`: a run of free sectors. */
  datatype Extent = Extent(start: nat, size: nat)

  datatype SwapDisk = SwapDisk(free: seq<Extent>, disk: seq<Sector>)

  // ---------------------------------------------------------------- extents

  ghost predicate Holds(e: Extent, x: int) {
    e.start <= x < e.start + e.size
  }

  /** Sector `x` lies in some extent of the list. */
  ghost predicate InFree(free: seq<Extent>, x: int) {
    exists i :: 0 <= i < |free| && Holds(free[i], x)
  }

  /** Sorted, nonempty extents, no two of which touch: every extent is a maximal run. */
  ghost predicate Canonical(free: seq<Extent>, n: nat) {
    && (forall i :: 0 <= i < |free| ==> 0 < free[i].size && free[i].start + free[i].size <= n)
    && (forall i, j :: 0 <= i < j < |free| ==> free[i].start + free[i].size < free[j].start)
  }

  /** The start of the slot-sized, slot-aligned block around sector `x`. */
  function SlotOf(x: nat): (t: nat)
    ensures t <= x < t + SECTORS_PER_FRAME && t % SECTORS_PER_FRAME == 0
  {
    x - x % SECTORS_PER_FRAME
  }

  /** Slots are aligned, lie on the disk, and the free list is exactly the rest of the disk. */
  ghost predicate ExactlyFree(free: seq<Extent>, taken: set<nat>, n: nat) {
    && (forall t :: t in taken ==> t % SECTORS_PER_FRAME == 0 && t + SECTORS_PER_FRAME <= n)
    && (forall x: nat :: x < n ==> (InFree(free, x) <==> SlotOf(x) !in taken))
  }

  /**
   The allocator's invariant.  A disk without sectors is the one exception to the
   canonical form: `swap_init` then installs one empty extent, which stays forever.
   */
  ghost predicate Valid(s: SwapDisk, taken: set<nat>) {
    && (if |s.disk| == 0 then s.free == [Extent(0, 0)] else Canonical(s.free, |s.disk|))
    && ExactlyFree(s.free, taken, |s.disk|)
  }

  /** `swap_init`. */
  function Init(disk: seq<Sector>): (s: SwapDisk)
    ensures s.disk == disk
    ensures Valid(s, {})
  {
    var s := SwapDisk([Extent(0, |disk|)], disk);
    assert forall x: nat :: x < |disk| ==> Holds(s.free[0], x);
    s
  }

  // ------------------------------------------------------------- allocation

  /** The first extent with room for a slot, or the length of the list. */
  function FirstFit(free: seq<Extent>): (k: nat)
    ensures k <= |free|
    ensures k < |free| ==> free[k].size >= SECTORS_PER_FRAME
    ensures forall i :: 0 <= i < k ==> free[i].size < SECTORS_PER_FRAME
  {
    if free == [] || free[0].size >= SECTORS_PER_FRAME then 0
    else
      var k := FirstFit(free[1..]);
      assert forall i :: 1 <= i < k + 1 ==> free[i] == free[1..][i - 1];
      1 + k
  }

  /** The list after a slot is cut from the front of extent `k`. */
  function Cut(free: seq<Extent>, k: nat): (r: seq<Extent>)
    requires k < |free| && free[k].size >= SECTORS_PER_FRAME
  {
    if free[k].size == SECTORS_PER_FRAME
    then free[..k] + free[k + 1..]
    else free[k := Extent(free[k].start + SECTORS_PER_FRAME, free[k].size - SECTORS_PER_FRAME)]
  }

  lemma InFreeConcat(a: seq<Extent>, b: seq<Extent>, x: int)
    ensures InFree(a + b, x) <==> InFree(a, x) || InFree(b, x)
  {
    if InFree(a, x) {
      var i :| 0 <= i < |a| && Holds(a[i], x);
      assert Holds((a + b)[i], x);
    }
    if InFree(b, x) {
      var i :| 0 <= i < |b| && Holds(b[i], x);
      assert Holds((a + b)[|a| + i], x);
    }
    if InFree(a + b, x) {
      var i :| 0 <= i < |a + b| && Holds((a + b)[i], x);
      assert if i < |a| then Holds(a[i], x) else Holds(b[i - |a|], x);
    }
  }

  /** The list splits around any stretch of it, and so do the sectors it holds. */
  lemma InFreeSplit(free: seq<Extent>, lo: nat, hi: nat, mid: seq<Extent>, x: int)
    requires lo <= hi <= |free|
    ensures InFree(free[..lo] + mid + free[hi..], x) <==>
            InFree(free[..lo], x) || InFree(mid, x) || InFree(free[hi..], x)
  {
    InFreeConcat(free[..lo] + mid, free[hi..], x);
    InFreeConcat(free[..lo], mid, x);
  }

  lemma InFreeNone(x: int)
    ensures !InFree([], x)
  {
  }

  lemma InFreeOne(e: Extent, x: int)
    ensures InFree([e], x) <==> Holds(e, x)
  {
    assert [e][0] == e;
  }

  lemma InFreeTwo(e: Extent, f: Extent, x: int)
    ensures InFree([e, f], x) <==> Holds(e, x) || Holds(f, x)
  {
    assert [e, f] == [e] + [f];
    InFreeConcat([e], [f], x);
    InFreeOne(e, x);
    InFreeOne(f, x);
  }

  /** Two neighbouring free sectors belong to the same extent. */
  lemma SameExtent(free: seq<Extent>, n: nat, i: nat, x: nat)
    requires Canonical(free, n) && i < |free|
    requires Holds(free[i], x) && InFree(free, x + 1)
    ensures Holds(free[i], x + 1)
  {
    var j :| 0 <= j < |free| && Holds(free[j], x + 1);
    assert i == j;
  }

  /** In the canonical form every extent starts on a slot boundary. */
  lemma StartAligned(free: seq<Extent>, taken: set<nat>, n: nat, k: nat)
    requires Canonical(free, n) && ExactlyFree(free, taken, n) && k < |free|
    ensures free[k].start % SECTORS_PER_FRAME == 0
  {
    var a := free[k].start;
    if a > 0 {
      assert Holds(free[k], a) && InFree(free, a);
      forall j | 0 <= j < |free|
        ensures !Holds(free[j], a - 1)
      {
        assert j < k ==> free[j].start + free[j].size < free[k].start;
        assert k < j ==> free[k].start + free[k].size < free[j].start;
      }
      assert SlotOf(a - 1) in taken && SlotOf(a) !in taken;
    }
  }

  /** Cutting a slot keeps the canonical form ... */
  lemma CutKeepsCanonical(free: seq<Extent>, n: nat, k: nat)
    requires Canonical(free, n) && k < |free| && free[k].size >= SECTORS_PER_FRAME
    ensures Canonical(Cut(free, k), n)
  {
  }

  /** ... and an extent of the canonical form shares no sector with the rest of the list. */
  lemma ExtentApart(free: seq<Extent>, n: nat, k: nat, x: int)
    requires Canonical(free, n) && k < |free| && Holds(free[k], x)
    ensures !InFree(free[..k], x) && !InFree(free[k + 1..], x)
  {
    forall i | 0 <= i < k ensures !Holds(free[..k][i], x) {
      assert free[i].start + free[i].size < free[k].start;
    }
    var after := free[k + 1..];
    forall i | 0 <= i < |after| ensures !Holds(after[i], x) {
      assert free[k].start + free[k].size < free[k + 1 + i].start;
    }
  }

  lemma CutParts(free: seq<Extent>, k: nat, e: Extent, mid: seq<Extent>)
    requires k < |free| && e == free[k] && e.size >= SECTORS_PER_FRAME
    requires mid == if e.size == SECTORS_PER_FRAME then []
                    else [Extent(e.start + SECTORS_PER_FRAME, e.size - SECTORS_PER_FRAME)]
    ensures free == free[..k] + [e] + free[k + 1..] && Cut(free, k) == free[..k] + mid + free[k + 1..]
  {
  }

  /** Cutting takes exactly the slot's sectors off the list. */
  lemma CutRemoves(free: seq<Extent>, n: nat, k: nat, x: int)
    requires Canonical(free, n) && k < |free| && free[k].size >= SECTORS_PER_FRAME
    ensures InFree(Cut(free, k), x) <==>
            InFree(free, x) && !(free[k].start <= x < free[k].start + SECTORS_PER_FRAME)
  {
    hide InFree, Cut, Canonical;
    var e := free[k];
    var rest := Extent(e.start + SECTORS_PER_FRAME, e.size - SECTORS_PER_FRAME);
    var mid := if e.size == SECTORS_PER_FRAME then [] else [rest];
    CutParts(free, k, e, mid);
    InFreeSplit(free, k, k + 1, [e], x);
    InFreeSplit(free, k, k + 1, mid, x);
    InFreeOne(e, x);
    InFreeOne(rest, x);
    InFreeNone(x);
    if Holds(e, x) { ExtentApart(free, n, k, x); }
  }

  /** `alloc_swap_slot` on a list with room takes one aligned, untaken slot and keeps the invariant. */
  lemma AllocKeepsValid(s: SwapDisk, taken: set<nat>)
    requires Valid(s, taken) && FirstFit(s.free) < |s.free|
    ensures var k := FirstFit(s.free); var t := s.free[k].start;
            && t !in taken && t % SECTORS_PER_FRAME == 0 && t + SECTORS_PER_FRAME <= |s.disk|
            && Valid(s.(free := Cut(s.free, k)), taken + {t})
  {
    var n := |s.disk|;
    var k := FirstFit(s.free);
    var t := s.free[k].start;
    var r := Cut(s.free, k);
    StartAligned(s.free, taken, n, k);
    assert Holds(s.free[k], t);
    assert SlotOf(t) == t;
    CutKeepsCanonical(s.free, n, k);
    forall x: nat | x < n
      ensures InFree(r, x) <==> SlotOf(x) !in taken + {t}
    {
      CutRemoves(s.free, n, k, x);
      assert SlotOf(x) == t <==> t <= x < t + SECTORS_PER_FRAME;
    }
  }

  /** Eight untaken sectors in a row lie in one extent. */
  lemma WholeSlotInExtent(s: SwapDisk, taken: set<nat>, t: nat) returns (i: nat)
    requires Valid(s, taken)
    requires t % SECTORS_PER_FRAME == 0 && t + SECTORS_PER_FRAME <= |s.disk| && t !in taken
    ensures i < |s.free| && s.free[i].size >= SECTORS_PER_FRAME
  {
    assert SlotOf(t) == t && InFree(s.free, t);
    i :| 0 <= i < |s.free| && Holds(s.free[i], t);
    var x := t;
    while x < t + SECTORS_PER_FRAME - 1
      invariant t <= x < t + SECTORS_PER_FRAME && Holds(s.free[i], x)
    {
      assert SlotOf(x + 1) == t;
      SameExtent(s.free, |s.disk|, i, x);
      x := x + 1;
    }
  }

  /** Allocation fails only when every whole slot of the disk is taken. */
  lemma AllocFailsOnlyWhenFull(s: SwapDisk, taken: set<nat>)
    requires Valid(s, taken)
    ensures FirstFit(s.free) == |s.free| <==>
            forall t: nat :: t % SECTORS_PER_FRAME == 0 && t + SECTORS_PER_FRAME <= |s.disk| ==> t in taken
  {
    if t: nat :| t % SECTORS_PER_FRAME == 0 && t + SECTORS_PER_FRAME <= |s.disk| && t !in taken {
      var i := WholeSlotInExtent(s, taken, t);
    } else if FirstFit(s.free) < |s.free| {
      AllocKeepsValid(s, taken);
    }
  }

  // ---------------------------------------------------------------- release

  /** `list_insert_ordered` by start sector: the position of the first extent that starts later. */
  function InsertAt(free: seq<Extent>, start: nat): (k: nat)
    ensures k <= |free|
    ensures forall i :: 0 <= i < k ==> free[i].start <= start
    ensures k < |free| ==> start < free[k].start
  {
    if free == [] || start < free[0].start then 0
    else
      var k := InsertAt(free[1..], start);
      assert forall i :: 1 <= i < k + 1 ==> free[i] == free[1..][i - 1];
      1 + k
  }

  /** Merge extent `k` with its right neighbour if they touch. */
  function MergeRight(free: seq<Extent>, k: nat): (r: seq<Extent>)
    requires k < |free|
    ensures |r| == |free| || |r| == |free| - 1
    ensures k < |r|
  {
    if k + 1 < |free| && free[k].start + free[k].size == free[k + 1].start
    then free[..k] + [Extent(free[k].start, free[k].size + free[k + 1].size)] + free[k + 2..]
    else free
  }

  /** Merge extent `k` into its left neighbour if they touch. */
  function MergeLeft(free: seq<Extent>, k: nat): (r: seq<Extent>)
    requires k < |free|
  {
    if k > 0 && free[k].start == free[k - 1].start + free[k - 1].size
    then free[..k - 1] + [Extent(free[k - 1].start, free[k - 1].size + free[k].size)] + free[k + 1..]
    else free
  }

  /** `free_swap_slot`: ordered insertion, then the merges to the right and to the left. */
  function Release(free: seq<Extent>, t: nat): (r: seq<Extent>) {
    var k := InsertAt(free, t);
    MergeLeft(MergeRight(free[..k] + [Extent(t, SECTORS_PER_FRAME)] + free[k..], k), k)
  }

  /** Sorted and nonempty but extents may touch, as after the ordered insertion. */
  ghost predicate Ordered(free: seq<Extent>, n: nat) {
    && (forall i :: 0 <= i < |free| ==> 0 < free[i].size && free[i].start + free[i].size <= n)
    && (forall i, j :: 0 <= i < j < |free| ==> free[i].start + free[i].size <= free[j].start)
  }

  /** Every gap except possibly those on the two sides of extent `k` is a real one. */
  ghost predicate GapsBut(free: seq<Extent>, left: int, right: int) {
    forall i :: 0 <= i < |free| - 1 && i != left && i != right ==>
      free[i].start + free[i].size < free[i + 1].start
  }

  lemma GapsMakeCanonical(free: seq<Extent>, n: nat)
    requires Ordered(free, n) && GapsBut(free, -1, -1)
    ensures Canonical(free, n)
  {
    forall i, j | 0 <= i < j < |free|
      ensures free[i].start + free[i].size < free[j].start
    {
      assert free[i].start + free[i].size < free[i + 1].start;
      if i + 1 < j {
        assert free[i + 1].start + free[i + 1].size <= free[j].start;
      }
    }
  }

  /** A merge of touching neighbours covers the same sectors. */
  lemma MergeSame(free: seq<Extent>, k: nat, x: int)
    requires k + 1 < |free| && free[k].start + free[k].size == free[k + 1].start
    ensures InFree(free[..k] + [Extent(free[k].start, free[k].size + free[k + 1].size)] + free[k + 2..], x)
            <==> InFree(free, x)
  {
    var e := Extent(free[k].start, free[k].size + free[k + 1].size);
    assert free == free[..k] + [free[k], free[k + 1]] + free[k + 2..];
    InFreeSplit(free, k, k + 2, [free[k], free[k + 1]], x);
    InFreeSplit(free, k, k + 2, [e], x);
    InFreeTwo(free[k], free[k + 1], x);
    InFreeOne(e, x);
  }

  lemma MergeRightOk(free: seq<Extent>, n: nat, k: nat)
    requires k < |free| && Ordered(free, n) && GapsBut(free, k - 1, k)
    ensures Ordered(MergeRight(free, k), n) && GapsBut(MergeRight(free, k), k - 1, -1)
    ensures forall x :: InFree(MergeRight(free, k), x) <==> InFree(free, x)
  {
    hide InFree;
    var r := MergeRight(free, k);
    if |r| != |free| {
      forall x ensures InFree(r, x) <==> InFree(free, x) { MergeSame(free, k, x); }
      forall i | 0 <= i < |r|
        ensures r[i].start == free[if i <= k then i else i + 1].start
        ensures EndOf(r[i]) == EndOf(free[if i < k then i else i + 1]) { }
      MergedOrdered(free, r, n, k);
    }
  }

  function EndOf(e: Extent): nat { e.start + e.size }

  /** An extent that starts where one ends and ends where the next ends takes the place of both. */
  lemma MergedOrdered(free: seq<Extent>, r: seq<Extent>, n: nat, k: nat)
    requires k + 1 < |free| && |r| == |free| - 1 && Ordered(free, n) && GapsBut(free, k - 1, k)
    requires forall i :: 0 <= i < |r| ==>
                 r[i].start == free[if i <= k then i else i + 1].start
                     && EndOf(r[i]) == EndOf(free[if i < k then i else i + 1])
    ensures Ordered(r, n) && GapsBut(r, k - 1, -1)
  {
    forall i | 0 <= i < |r| ensures 0 < r[i].size && EndOf(r[i]) <= n {
      var a, b := if i <= k then i else i + 1, if i < k then i else i + 1;
      assert free[a].size > 0 && free[b].size > 0 && (a < b ==> EndOf(free[a]) <= free[b].start);
    }
    forall i, j | 0 <= i < j < |r| ensures EndOf(r[i]) <= r[j].start {
      assert EndOf(free[if i < k then i else i + 1]) <= free[if j <= k then j else j + 1].start;
    }
    forall i | 0 <= i < |r| - 1 && i != k - 1 ensures EndOf(r[i]) < r[i + 1].start {
      var a := if i < k then i else i + 1;
      assert EndOf(free[a]) < free[a + 1].start;
    }
  }

  lemma MergeLeftOk(free: seq<Extent>, n: nat, k: nat)
    requires k < |free| && Ordered(free, n) && GapsBut(free, k - 1, -1)
    ensures Ordered(MergeLeft(free, k), n) && GapsBut(MergeLeft(free, k), -1, -1)
    ensures forall x :: InFree(MergeLeft(free, k), x) <==> InFree(free, x)
  {
    hide InFree, Ordered, MergeRight;
    if k > 0 && free[k].start == free[k - 1].start + free[k - 1].size {
      MergesAlike(free, k);
      MergeRightOk(free, n, k - 1);
    } else if k > 0 {
      InOrder(free, n, k - 1);
    }
  }

  lemma InOrder(free: seq<Extent>, n: nat, i: nat)
    requires i + 1 < |free| && Ordered(free, n)
    ensures free[i].start + free[i].size <= free[i + 1].start
  {
  }

  lemma MergesAlike(free: seq<Extent>, k: nat)
    requires 0 < k < |free| && free[k].start == free[k - 1].start + free[k - 1].size
    ensures MergeLeft(free, k) == MergeRight(free, k - 1)
  {
  }

  /** In an ordered insertion the extents before the slot end before it, those after start after it. */
  lemma InsertApart(free: seq<Extent>, taken: set<nat>, n: nat, t: nat, i: nat)
    requires Canonical(free, n) && ExactlyFree(free, taken, n) && t in taken && i < |free|
    ensures if i < InsertAt(free, t) then free[i].start + free[i].size <= t
            else t + SECTORS_PER_FRAME <= free[i].start
  {
    hide InFree, InsertAt, SlotOf;
    var k := InsertAt(free, t);
    SlotOfIs(t, t);
    if i < k {
      HeldIsFree(free, i, t);
    } else {
      assert free[k].start <= free[i].start;
      HeldIsFree(free, i, free[i].start);
      SlotOfIs(free[i].start, t);
    }
  }

  lemma HeldIsFree(free: seq<Extent>, i: nat, x: nat)
    requires i < |free|
    ensures Holds(free[i], x) ==> InFree(free, x)
  {
  }

  /** Ordered insertion of an extent that overlaps none of the list. */
  lemma InsertOk(free: seq<Extent>, n: nat, k: nat, e: Extent)
    requires Canonical(free, n) && k <= |free| && 0 < e.size && e.start + e.size <= n
    requires forall i :: 0 <= i < k ==> free[i].start + free[i].size <= e.start
    requires forall i :: k <= i < |free| ==> e.start + e.size <= free[i].start
    ensures Ordered(free[..k] + [e] + free[k..], n)
    ensures GapsBut(free[..k] + [e] + free[k..], k - 1, k)
  {
    InsertedAt(free, n, k, e, free[..k] + [e] + free[k..]);
  }

  lemma InsertedAt(free: seq<Extent>, n: nat, k: nat, e: Extent, r: seq<Extent>)
    requires Canonical(free, n) && k <= |free| && 0 < e.size && e.start + e.size <= n
    requires forall i :: 0 <= i < k ==> free[i].start + free[i].size <= e.start
    requires forall i :: k <= i < |free| ==> e.start + e.size <= free[i].start
    requires |r| == |free| + 1 && r[k] == e && (forall i :: 0 <= i < k ==> r[i] == free[i])
    requires forall i :: k < i < |r| ==> r[i] == free[i - 1]
    ensures Ordered(r, n) && GapsBut(r, k - 1, k)
  {
    forall i, j | 0 <= i < j < |r|
      ensures if i == k || j == k then r[i].start + r[i].size <= r[j].start else r[i].start + r[i].size < r[j].start
    {
      if i > k { assert r[i] == free[i - 1]; }
      if j > k { assert r[j] == free[j - 1]; }
    }
  }

  lemma InsertAdds(free: seq<Extent>, k: nat, t: nat, x: int)
    requires k <= |free|
    ensures InFree(free[..k] + [Extent(t, SECTORS_PER_FRAME)] + free[k..], x)
            <==> InFree(free, x) || t <= x < t + SECTORS_PER_FRAME
  {
    InFreeSplit(free, k, k, [Extent(t, SECTORS_PER_FRAME)], x);
    InFreeOne(Extent(t, SECTORS_PER_FRAME), x);
    assert free == free[..k] + free[k..];
    InFreeConcat(free[..k], free[k..], x);
  }

  /** The released list is canonical and holds the slot's sectors besides those it held. */
  lemma ReleaseOk(free: seq<Extent>, taken: set<nat>, n: nat, t: nat)
    requires Canonical(free, n) && ExactlyFree(free, taken, n) && t in taken
    ensures Canonical(Release(free, t), n)
    ensures forall x :: InFree(Release(free, t), x) <==> InFree(free, x) || t <= x < t + SECTORS_PER_FRAME
  {
    var k := InsertAt(free, t);
    var e := Extent(t, SECTORS_PER_FRAME);
    forall i | 0 <= i < |free|
      ensures if i < k then free[i].start + free[i].size <= t else t + SECTORS_PER_FRAME <= free[i].start
    {
      InsertApart(free, taken, n, t, i);
    }
    InsertOk(free, n, k, e);
    forall x
      ensures InFree(free[..k] + [e] + free[k..], x) <==> InFree(free, x) || t <= x < t + SECTORS_PER_FRAME
    {
      InsertAdds(free, k, t, x);
    }
    MergeRightOk(free[..k] + [e] + free[k..], n, k);
    MergeLeftOk(MergeRight(free[..k] + [e] + free[k..], k), n, k);
    GapsMakeCanonical(Release(free, t), n);
  }

  /** `free_swap_slot` of a taken slot gives back exactly its sectors and restores the canonical form. */
  lemma ReleaseKeepsValid(s: SwapDisk, taken: set<nat>, t: nat)
    requires Valid(s, taken) && t in taken
    ensures Valid(s.(free := Release(s.free, t)), taken - {t})
  {
    hide Release, InFree, Canonical, SlotOf;
    ReleaseOk(s.free, taken, |s.disk|, t);
    forall x: nat | x < |s.disk|
      ensures InFree(Release(s.free, t), x) <==> SlotOf(x) !in taken - {t}
    {
      SlotOfIs(x, t);
    }
  }

  lemma SlotOfIs(x: nat, t: nat)
    requires t % SECTORS_PER_FRAME == 0
    ensures SlotOf(x) == t <==> t <= x < t + SECTORS_PER_FRAME
  {
  }

  // --------------------------------------------------------------- contents

  /** The bytes of sectors `lo` up to `hi` in order. */
  function Bytes(disk: seq<Sector>, lo: nat, hi: nat): (b: seq<byte>)
    requires lo <= hi <= |disk|
    ensures |b| == (hi - lo) * SECTOR_SIZE
    decreases hi - lo
  {
    if lo == hi then [] else Bytes(disk, lo, hi - 1) + disk[hi - 1]
  }

  /** The bytes of the slot that starts at sector `t`. */
  function SlotPage(disk: seq<Sector>, t: nat): (p: seq<byte>)
    requires t + SECTORS_PER_FRAME <= |disk|
    ensures |p| == PGSIZE
  {
    Bytes(disk, t, t + SECTORS_PER_FRAME)
  }

  /** The `k`th sector of a page. */
  function SectorOf(p: Page, k: nat): (s: Sector)
    requires k < SECTORS_PER_FRAME
  {
    p[k * SECTOR_SIZE..(k + 1) * SECTOR_SIZE]
  }

  /** The disk after the first `k` sectors of a page are written from sector `t` on. */
  function Stored(disk: seq<Sector>, t: nat, p: Page, k: nat): (r: seq<Sector>)
    requires k <= SECTORS_PER_FRAME && t + k <= |disk|
    ensures |r| == |disk|
    ensures forall x :: 0 <= x < |disk| && !(t <= x < t + k) ==> r[x] == disk[x]
  {
    if k == 0 then disk else Stored(disk, t, p, k - 1)[t + k - 1 := SectorOf(p, k - 1)]
  }

  lemma {:induction false} BytesSame(a: seq<Sector>, b: seq<Sector>, lo: nat, hi: nat)
    requires lo <= hi <= |a| && hi <= |b|
    requires forall x :: lo <= x < hi ==> a[x] == b[x]
    ensures Bytes(a, lo, hi) == Bytes(b, lo, hi)
    decreases hi - lo
  {
    if lo < hi {
      BytesSame(a, b, lo, hi - 1);
    }
  }

  lemma {:induction false} StoredPrefix(disk: seq<Sector>, t: nat, p: Page, k: nat)
    requires k <= SECTORS_PER_FRAME && t + k <= |disk|
    ensures Bytes(Stored(disk, t, p, k), t, t + k) == p[..k * SECTOR_SIZE]
  {
    if k > 0 {
      StoredPrefix(disk, t, p, k - 1);
      BytesSame(Stored(disk, t, p, k), Stored(disk, t, p, k - 1), t, t + k - 1);
      assert p[..k * SECTOR_SIZE] == p[..(k - 1) * SECTOR_SIZE] + SectorOf(p, k - 1);
    }
  }

  /** A slot reads back the page stored in it ... */
  lemma StoredReadsBack(disk: seq<Sector>, t: nat, p: Page)
    requires t + SECTORS_PER_FRAME <= |disk|
    ensures SlotPage(Stored(disk, t, p, SECTORS_PER_FRAME), t) == p
  {
    StoredPrefix(disk, t, p, SECTORS_PER_FRAME);
  }

  /** ... and no other slot changes. */
  lemma StoredElsewhere(disk: seq<Sector>, t: nat, p: Page, u: nat)
    requires t + SECTORS_PER_FRAME <= |disk| && u + SECTORS_PER_FRAME <= |disk|
    requires t % SECTORS_PER_FRAME == 0 && u % SECTORS_PER_FRAME == 0 && t != u
    ensures SlotPage(Stored(disk, t, p, SECTORS_PER_FRAME), u) == SlotPage(disk, u)
  {
    assert u + SECTORS_PER_FRAME <= t || t + SECTORS_PER_FRAME <= u;
    BytesSame(Stored(disk, t, p, SECTORS_PER_FRAME), disk, u, u + SECTORS_PER_FRAME);
  }

  // ------------------------------------------------------- runs of the disk

  /** `swap_slot_write`: `None` is the null pointer returned when there is no room. */
  function Write(s: SwapDisk, p: Page): (r: (SwapDisk, Option<nat>))
    ensures |r.0.disk| == |s.disk|
  {
    var k := FirstFit(s.free);
    if k < |s.free| && s.free[k].start + SECTORS_PER_FRAME <= |s.disk| then
      var t := s.free[k].start;
      (SwapDisk(Cut(s.free, k), Stored(s.disk, t, p, SECTORS_PER_FRAME)), Some(t))
    else
      (s, None)
  }

  /** `swap_slot_read`: the bytes of the slot, which is released. */
  function Read(s: SwapDisk, t: nat): (r: (SwapDisk, Page))
    requires t + SECTORS_PER_FRAME <= |s.disk|
    ensures r.0.disk == s.disk
  {
    (s.(free := Release(s.free, t)), SlotPage(s.disk, t))
  }

  /** The abstract swap device: which slots are taken and what they hold. */
  type Slots = map<nat, Page>

  ghost predicate Refines(s: SwapDisk, m: Slots) {
    && Valid(s, m.Keys)
    && forall t :: t in m ==> t + SECTORS_PER_FRAME <= |s.disk| && SlotPage(s.disk, t) == m[t]
  }

  /** Writing adds one fresh slot holding the page, or fails because every slot is taken. */
  lemma WriteRefines(s: SwapDisk, m: Slots, p: Page)
    requires Refines(s, m)
    ensures var (s', r) := Write(s, p);
            match r
            case Some(t) => t !in m && t % SECTORS_PER_FRAME == 0 && Refines(s', m[t := p])
            case None => s' == s && forall t: nat :: t % SECTORS_PER_FRAME == 0 && t + SECTORS_PER_FRAME <= |s.disk| ==>
              t in m.Keys
  {
    var k := FirstFit(s.free);
    if k < |s.free| {
      var t := s.free[k].start;
      AllocKeepsValid(s, m.Keys);
      var m' := m[t := p];
      var s' := Write(s, p).0;
      assert m'.Keys == m.Keys + {t};
      assert Valid(s', m'.Keys);
      forall u | u in m'
        ensures u + SECTORS_PER_FRAME <= |s'.disk| && SlotPage(s'.disk, u) == m'[u]
      {
        if u == t {
          StoredReadsBack(s.disk, t, p);
        } else {
          StoredElsewhere(s.disk, t, p, u);
        }
      }
    } else {
      AllocFailsOnlyWhenFull(s, m.Keys);
    }
  }

  /** Reading a taken slot returns the page written to it and frees exactly that slot. */
  lemma ReadRefines(s: SwapDisk, m: Slots, t: nat)
    requires Refines(s, m) && t in m
    ensures var (s', p) := Read(s, t); p == m[t] && Refines(s', m - {t})
  {
    ReleaseKeepsValid(s, m.Keys, t);
    assert (m - {t}).Keys == m.Keys - {t};
  }

  /** The disk determines which slots are taken and what they hold. */
  lemma SlotsUnique(s: SwapDisk, m: Slots, m': Slots)
    requires Refines(s, m) && Refines(s, m')
    ensures m == m'
  {
    forall t | t in m.Keys + m'.Keys ensures t in m && t in m' {
      assert SlotOf(t) == t;
      assert InFree(s.free, t) <==> t !in m.Keys;
      assert InFree(s.free, t) <==> t !in m'.Keys;
    }
    assert m.Keys == m'.Keys;
  }

  datatype SwapOp = Put(page: Page) | Get(slot: nat)

  datatype SwapReply = Placed(slot: Option<nat>) | Fetched(page: Page)

  function Apply(s: SwapDisk, op: SwapOp): (r: (SwapDisk, SwapReply)) {
    match op
    case Put(p) => var (s', slot) := Write(s, p); (s', Placed(slot))
    case Get(t) =>
      if t + SECTORS_PER_FRAME > |s.disk| then (s, Placed(None))
      else var (s', p) := Read(s, t); (s', Fetched(p))
  }

  /** A run of slot writes and reads, and the replies they got. */
  function Run(s: SwapDisk, ops: seq<SwapOp>): (r: (SwapDisk, seq<SwapReply>))
    ensures |r.1| == |ops|
  {
    if ops == [] then (s, [])
    else
      var (s1, replies) := Run(s, ops[..|ops| - 1]);
      var (s2, reply) := Apply(s1, ops[|ops| - 1]);
      (s2, replies + [reply])
  }

  /** What the slots must hold after a run, from its calls and replies alone. */
  function Held(m: Slots, ops: seq<SwapOp>, replies: seq<SwapReply>): (r: Slots)
    requires |ops| == |replies|
  {
    if ops == [] then m
    else
      var n := |ops| - 1;
      var before := Held(m, ops[..n], replies[..n]);
      match ops[n]
      case Put(p) => if replies[n].Placed? && replies[n].slot.Some? then before[replies[n].slot.value := p] else before
      case Get(t) => before - {t}
  }

  /** A write is given a slot nobody holds, unless all are held; a read gets the page last written to its slot. */
  ghost predicate ReplyOk(m: Slots, n: nat, op: SwapOp, reply: SwapReply) {
    match op
    case Put(_) =>
      && reply.Placed?
      && (match reply.slot
          case Some(t) => t !in m && t % SECTORS_PER_FRAME == 0 && t + SECTORS_PER_FRAME <= n
          case None => forall t: nat :: t % SECTORS_PER_FRAME == 0 && t + SECTORS_PER_FRAME <= n ==> t in m.Keys)
    case Get(t) => t in m && reply == Fetched(m[t])
  }

  /** Callers read only slots they were given and have not read since. */
  ghost predicate Legal(s: SwapDisk, m: Slots, ops: seq<SwapOp>) {
    forall i :: 0 <= i < |ops| && ops[i].Get? ==> ops[i].slot in Held(m, ops[..i], Run(s, ops[..i]).1)
  }

  lemma ApplyRefines(s: SwapDisk, m: Slots, op: SwapOp)
    requires Refines(s, m) && (op.Get? ==> op.slot in m)
    ensures var (s', reply) := Apply(s, op);
            && |s'.disk| == |s.disk| && ReplyOk(m, |s.disk|, op, reply) && Refines(s', Held(m, [op], [reply]))
  {
    hide Refines, Write, Read;
    var (s', reply) := Apply(s, op);
    assert Held(m, [op][..0], [reply][..0]) == m;
    match op
    case Put(p) =>
      WriteRefines(s, m, p);
      if reply.slot.Some? { TakenOnDisk(s', m[reply.slot.value := p], reply.slot.value); }
    case Get(t) =>
      TakenOnDisk(s, m, t);
      ReadRefines(s, m, t);
  }

  lemma TakenOnDisk(s: SwapDisk, m: Slots, t: nat)
    requires Refines(s, m) && t in m
    ensures t + SECTORS_PER_FRAME <= |s.disk|
  {
  }

  ghost predicate RepliesOk(m: Slots, n: nat, ops: seq<SwapOp>, replies: seq<SwapReply>)
    requires |ops| == |replies|
  {
    forall i :: 0 <= i < |ops| ==> ReplyOk(Held(m, ops[..i], replies[..i]), n, ops[i], replies[i])
  }

  lemma LegalPrefix(s: SwapDisk, m: Slots, ops: seq<SwapOp>, n: nat)
    requires Legal(s, m, ops) && n <= |ops|
    ensures Legal(s, m, ops[..n])
  {
    hide Run, Held;
    forall i | 0 <= i < n && ops[..n][i].Get?
      ensures ops[..n][i].slot in Held(m, ops[..n][..i], Run(s, ops[..n][..i]).1) {
      assert ops[..n][..i] == ops[..i] && ops[..n][i] == ops[i];
    }
  }

  lemma RepliesExtend(m: Slots, k: nat, ops: seq<SwapOp>, replies: seq<SwapReply>)
    requires |ops| == |replies| > 0
    requires var n := |ops| - 1;
             RepliesOk(m, k, ops[..n], replies[..n]) && ReplyOk(Held(m, ops[..n], replies[..n]), k, ops[n], replies[n])
    ensures RepliesOk(m, k, ops, replies)
  {
    hide ReplyOk, Held;
    var n := |ops| - 1;
    forall i | 0 <= i < |ops| ensures ReplyOk(Held(m, ops[..i], replies[..i]), k, ops[i], replies[i]) {
      if i < n {
        assert ops[..n][..i] == ops[..i] && replies[..n][..i] == replies[..i] && ops[..n][i] == ops[i];
      }
    }
  }

  /** Over every run, every reply is right, and the disk holds exactly what the calls and replies say. */
  lemma {:induction false} RunRefines(s: SwapDisk, m: Slots, ops: seq<SwapOp>)
    requires Refines(s, m) && Legal(s, m, ops)
    ensures var (s', replies) := Run(s, ops);
            |s'.disk| == |s.disk| && Refines(s', Held(m, ops, replies)) && RepliesOk(m, |s.disk|, ops, replies)
    decreases |ops|
  {
    hide Refines, ReplyOk, Apply, Held, RepliesOk;
    if ops == [] {
      NothingHeld(s, m);
    } else {
      var n := |ops| - 1;
      LegalPrefix(s, m, ops, n);
      RunRefines(s, m, ops[..n]);
      var (s1, before) := Run(s, ops[..n]);
      ApplyRefines(s1, Held(m, ops[..n], before), ops[n]);
      var replies := Run(s, ops).1;
      assert replies[..n] == before;
      HeldOne(m, ops, replies);
      RepliesExtend(m, |s.disk|, ops, replies);
    }
  }

  lemma NothingHeld(s: SwapDisk, m: Slots)
    ensures Held(m, [], []) == m && RepliesOk(m, |s.disk|, [], [])
  {
  }

  lemma HeldOne(m: Slots, ops: seq<SwapOp>, replies: seq<SwapReply>)
    requires |ops| == |replies| > 0
    ensures var n := |ops| - 1; Held(m, ops, replies) == Held(Held(m, ops[..n], replies[..n]), [ops[n]], [replies[n]])
  {
    var n := |ops| - 1;
    assert Held(Held(m, ops[..n], replies[..n]), [ops[n]][..0], [replies[n]][..0]) == Held(m, ops[..n], replies[..n]);
  }

  // ------------------------------------------------------------- the module

  lemma FirstFitIs(free: seq<Extent>, k: nat)
    requires k <= |free| && (forall i :: 0 <= i < k ==> free[i].size < SECTORS_PER_FRAME)
    requires (k < |free| ==> free[k].size >= SECTORS_PER_FRAME)
    ensures k == FirstFit(free)
  {
  }

  /** The state of vm/swap.c: the free list and the swap disk. */
  class SwapTable {
    var free: seq<Extent>
    const disk: array<Sector>
    /** The taken slots and the pages written to them. */
    ghost var slots: Slots

    ghost function Disk(): SwapDisk
      reads this, disk
    {
      SwapDisk(free, disk[..])
    }

    ghost predicate Ok()
      reads this, disk
    {
      Refines(Disk(), slots)
    }

    /** `swap_init` on the given disk. */
    constructor (sectors: array<Sector>)
      ensures Ok() && slots == map[] && disk == sectors && Disk() == Init(sectors[..])
    {
      free := [Extent(0, sectors.Length)];
      disk := sectors;
      slots := map[];
      new;
      assert Disk() == Init(disk[..]);
    }

    /** `alloc_swap_slot`; `None` stands for the false sector. */
    method AllocSwapSlot() returns (r: Option<nat>)
      requires Ok()
      modifies this`free
      ensures var k := FirstFit(old(free));
              if k < |old(free)| then r == Some(old(free)[k].start) && free == Cut(old(free), k)
              else r == None && free == old(free)
    {
      hide FirstFit;
      var k := 0;
      while k < |free| && free[k].size < SECTORS_PER_FRAME
        invariant k <= |free|
        invariant forall i :: 0 <= i < k ==> free[i].size < SECTORS_PER_FRAME
      {
        k := k + 1;
      }
      FirstFitIs(free, k);
      if k == |free| {
        return None;
      }
      r := Some(free[k].start);
      if free[k].size == SECTORS_PER_FRAME {
        free := free[..k] + free[k + 1..];
      } else {
        free := free[k := Extent(free[k].start + SECTORS_PER_FRAME, free[k].size - SECTORS_PER_FRAME)];
      }
    }

    /** `free_swap_slot`. */
    method FreeSwapSlot(t: nat)
      modifies this`free
      ensures free == Release(old(free), t)
    {
      hide InsertAt;
      var k := 0;
      while k < |free| && free[k].start <= t
        invariant k <= |free|
        invariant forall i :: 0 <= i < k ==> free[i].start <= t
      {
        k := k + 1;
      }
      InsertAtUnique(free, t, k);
      free := free[..k] + [Extent(t, SECTORS_PER_FRAME)] + free[k..];
      if k + 1 < |free| && free[k].start + free[k].size == free[k + 1].start {
        free := free[..k] + [Extent(free[k].start, free[k].size + free[k + 1].size)] + free[k + 2..];
      }
      if k > 0 && free[k].start == free[k - 1].start + free[k - 1].size {
        free := free[..k - 1] + [Extent(free[k - 1].start, free[k - 1].size + free[k].size)] + free[k + 1..];
      }
    }

    /** `swap_slot_write`: a fresh slot now holds the frame; or every slot was taken and nothing changes. */
    method SlotWrite(frame: Page) returns (r: Option<nat>)
      requires Ok()
      modifies this, disk
      ensures Ok() && (Disk(), r) == Write(old(Disk()), frame)
      ensures r.Some? ==> r.value !in old(slots) && slots == old(slots)[r.value := frame]
      ensures r == None ==> slots == old(slots) && Disk() == old(Disk())
                            && forall t: nat :: t % SECTORS_PER_FRAME == 0 && t + SECTORS_PER_FRAME <= disk.Length ==>
                                   t in slots.Keys
    {
      hide Valid, FirstFit, Cut, SectorOf, SlotPage;
      ghost var s := Disk();
      WriteRefines(s, slots, frame);
      r := AllocSwapSlot();
      if r.Some? {
        AllocKeepsValid(s, slots.Keys);
        var start := r.value;
        var k := 0;
        while k < SECTORS_PER_FRAME
          invariant 0 <= k <= SECTORS_PER_FRAME
          invariant disk[..] == Stored(s.disk, start, frame, k)
          invariant free == Cut(s.free, FirstFit(s.free)) && slots == old(slots)
        {
          disk[start + k] := SectorOf(frame, k);
          k := k + 1;
        }
        assert Disk() == Write(s, frame).0;
        slots := slots[start := frame];
      }
    }

    /** The copy loop of `swap_slot_read`. */
    method ReadSectors(t: nat) returns (frame: Page)
      requires t + SECTORS_PER_FRAME <= disk.Length
      ensures frame == SlotPage(disk[..], t)
    {
      var bytes: seq<byte> := [];
      var k := 0;
      while k < SECTORS_PER_FRAME
        invariant 0 <= k <= SECTORS_PER_FRAME
        invariant bytes == Bytes(disk[..], t, t + k)
      {
        bytes := bytes + disk[t + k];
        k := k + 1;
      }
      frame := bytes;
    }

    /** `swap_slot_read`: the page written to the slot, which is free again. */
    method SlotRead(t: nat) returns (frame: Page)
      requires Ok() && t in slots
      modifies this
      ensures t + SECTORS_PER_FRAME <= disk.Length
      ensures Ok() && (Disk(), frame) == Read(old(Disk()), t)
      ensures frame == old(slots)[t] && slots == old(slots) - {t}
    {
      ghost var s := Disk();
      ReadRefines(s, slots, t);
      frame := ReadSectors(t);
      FreeSwapSlot(t);
      slots := slots - {t};
      assert Disk() == Read(s, t).0;
    }
  }

  /** The position found by the scan of the ordered insertion is the one `InsertAt` names. */
  lemma {:induction false} InsertAtUnique(free: seq<Extent>, t: nat, k: nat)
    requires k <= |free|
    requires forall i :: 0 <= i < k ==> free[i].start <= t
    requires k < |free| ==> t < free[k].start
    ensures InsertAt(free, t) == k
  {
    if k > 0 {
      InsertAtUnique(free[1..], t, k - 1);
    }
  }
}
