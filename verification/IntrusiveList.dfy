/**
 The intrusive doubly linked list of lib/kernel/list.c, with its splice and its
 natural merge sort, on real prev and next links between two sentinels.
 */
module IntrusiveList {
  import opened Arithmetic
  import opened Base
  import opened SortSpec

  class Elem {
    var prev: Elem?
    var next: Elem?
  }

  /** `c` runs from a head sentinel to a tail sentinel, linked both ways. */
  ghost predicate Linked(c: seq<Elem>)
    reads c
  {
    && |c| >= 2 && Distinct(c)
    && c[0].prev == null && c[|c| - 1].next == null
    && (forall i {:trigger c[i].next} :: 0 <= i < |c| - 1 ==> c[i].next == c[i + 1])
    && (forall i {:trigger c[i].prev} :: 0 < i < |c| ==> c[i].prev == c[i - 1])
  }

  /** Elements linked to each other, front to back. */
  ghost predicate Strand(x: seq<Elem>)
    reads x
  {
    && |x| >= 1 && Distinct(x)
    && (forall i {:trigger x[i].next} :: 0 <= i < |x| - 1 ==> x[i].next == x[i + 1])
    && (forall i {:trigger x[i].prev} :: 0 < i < |x| ==> x[i].prev == x[i - 1])
  }

  lemma LinkedBounds(c: seq<Elem>, i: nat, j: nat)
    requires Linked(c) && i <= j < |c|
    ensures Distinct(c) && (c[i] == c[j] ==> i == j)
    ensures i < j ==> c[j].prev == c[j - 1]
  {
  }

  lemma LinkedIsStrand(c: seq<Elem>)
    ensures Linked(c) <==> Strand(c) && |c| >= 2 && c[0].prev == null && c[|c| - 1].next == null
  {
  }

  lemma StrandSplit(c: seq<Elem>, k: nat)
    requires Strand(c) && 1 <= k < |c|
    ensures Strand(c[..k]) && Strand(c[k..]) && c[k - 1].next == c[k] && c[k].prev == c[k - 1]
    ensures forall e :: e in c[..k] ==> e !in c[k..]
  {
    var r := c[k..];
    assert forall i :: 0 <= i < |r| ==> r[i] == c[k + i];
  }

  /** The three pieces a stretch divides a list into. */
  lemma Pieces(c: seq<Elem>, i: nat, j: nat)
    requires Linked(c) && 1 <= i < j < |c|
    ensures var l, x, r := c[..i], c[i..j], c[j..];
            && Strand(l) && Strand(x) && Strand(r) && l[0].prev == null && r[|r| - 1].next == null
            && x[0].prev == l[i - 1] && x[j - i - 1].next == r[0]
            && (forall e :: e in l ==> e !in x && e !in r) && (forall e :: e in x ==> e !in l + r && e !in r)
  {
    hide Linked, Strand;
    LinkedIsStrand(c);
    StrandSplit(c, i);
    var d := c[i..];
    StrandSplit(d, j - i);
    assert d[..j - i] == c[i..j] && d[j - i..] == c[j..];
    assert forall e :: e in c[i..j] ==> e in d;
    assert forall e :: e in c[j..] ==> e in d;
  }

  lemma BesidePieces(c: seq<Elem>, x: seq<Elem>, k: nat)
    requires Strand(c) && Strand(x) && 1 <= k < |c| && forall e :: e in x ==> e !in c
    ensures var l, r := c[..k], c[k..];
            && (forall e :: e in l ==> e !in x) && (forall e :: e in l + x ==> e !in r)
            && c[k - 1] in l && c[k] in r && x[0] in x && x[|x| - 1] in x && l[0] in l && r[|r| - 1] in r
  {
    assert forall e :: e in c[..k] ==> e in c;
    assert forall e :: e in c[k..] ==> e in c;
  }

  lemma StrandJoin(l: seq<Elem>, r: seq<Elem>)
    requires Strand(l) && Strand(r) && (forall e :: e in l ==> e !in r)
    requires l[|l| - 1].next == r[0] && r[0].prev == l[|l| - 1]
    ensures Strand(l + r)
  {
    var c := l + r;
    forall i, j | 0 <= i < j < |c| ensures c[i] != c[j] {
      if i < |l| <= j { assert c[i] in l && c[j] in r; }
    }
  }

  lemma CutIs<T>(c: seq<T>, i: nat, j: nat)
    requires Distinct(c) && i <= j <= |c|
    ensures Distinct(c[..i] + c[j..]) && Distinct(c[i..j]) && forall e :: e in c[i..j] ==> e !in c[..i] + c[j..]
  {
  }

  /** A sequence with the stretch from `i` to `j` moved in front of the element at `k`, which is outside it. */
  function Spliced<T>(c: seq<T>, k: nat, i: nat, j: nat): (r: seq<T>)
    requires i <= j <= |c| && k <= |c| && (k < i || j <= k)
  {
    if k < i then c[..k] + c[i..j] + c[k..i] + c[j..] else c[..i] + c[j..k] + c[i..j] + c[k..]
  }

  /** Nothing moves. */
  lemma SplicedNothing<T>(c: seq<T>, d: seq<T>, k: nat, i: nat)
    requires i <= |d| && k <= |c|
    ensures d == d[..i] + d[i..] && c == c[..k] + d[i..i] + c[k..] && (c == d ==> Spliced(c, k, i, i) == c)
  {
  }

  /** Taken out first, the stretch goes back in where `k` is then. */
  lemma SplicedIs<T>(c: seq<T>, k: nat, i: nat, j: nat)
    requires 1 <= i < j <= |c| && 1 <= k < |c| && (k < i || j <= k)
    ensures var r, at := c[..i] + c[j..], if j <= k then k - (j - i) else k;
            1 <= at < |r| && r[at] == c[k] && r[..at] + c[i..j] + r[at..] == Spliced(c, k, i, j)
  {
    var r, at := c[..i] + c[j..], if j <= k then k - (j - i) else k;
    if k < i {
      assert r[at..] == c[k..i] + c[j..] && r[..at] == c[..k];
    } else {
      assert r[..at] == c[..i] + c[j..k] && r[at..] == c[k..];
    }
  }

  /** What a splice between two lists touches in one is not in the other. */
  lemma StretchApart<T>(c: seq<T>, d: seq<T>, k: nat, i: nat, j: nat)
    requires 1 <= k < |c| && 1 <= i < j < |d| && Distinct(d) && forall e :: e in d ==> e !in c
    ensures var r := d[..i] + d[j..];
            d[i - 1] !in c && d[j] !in c && d[i] !in r && d[j - 1] !in r && c[k - 1] !in r && c[k] !in r
  {
    CutIs(d, i, j);
    assert d[i - 1] in d && d[j] in d && d[i] == d[i..j][0] && d[j - 1] == d[i..j][j - i - 1];
    assert c[k - 1] in c && c[k] in c && forall e :: e in d[..i] + d[j..] ==> e in d;
  }

  /** A splice of one element, to the front. */
  lemma SplicedOne<T>(c: seq<T>, k: nat, i: nat)
    requires k < i < |c|
    ensures Spliced(c, k, i, i + 1) == Moved(c, k, i)
  {
  }

  /** Two pointer assignments join two strands. */
  method Link(a: Elem, b: Elem, ghost l: seq<Elem>, ghost r: seq<Elem>)
    requires Strand(l) && Strand(r) && l[|l| - 1] == a && r[0] == b && forall e :: e in l ==> e !in r
    modifies a`next, b`prev
    ensures Strand(l + r) && a.next == b && b.prev == a
  {
    assert a in l && b in r;
    a.next := b;
    b.prev := a;
    StrandJoin(l, r);
  }

  // ------------------------------------------------------- merging, on values

  /**
   The state of an in-place merge of positions `lo..hi`: up to `i` the result is final,
   `i..j` is what is left of the first run and `j..hi` what is left of the second.
   */
  ghost predicate Merging(less: (Elem, Elem) -> bool, c: seq<Elem>, lo: nat, i: nat, j: nat, hi: nat) {
    && lo <= i <= j <= hi <= |c|
    && (forall p, q :: lo <= p < q < j ==> !less(c[q], c[p]))
    && (forall p, q :: j <= p < q < hi ==> !less(c[q], c[p]))
    && (forall p, q :: lo <= p < i && j <= q < hi ==> !less(c[q], c[p]))
  }

  /** Positions `lo..hi` are in order. */
  ghost predicate SortedIn(less: (Elem, Elem) -> bool, c: seq<Elem>, lo: nat, hi: nat) {
    lo <= hi <= |c| && forall p, q :: lo <= p < q < hi ==> !less(c[q], c[p])
  }

  lemma MergeAdvance(less: (Elem, Elem) -> bool, c: seq<Elem>, lo: nat, i: nat, j: nat, hi: nat)
    requires Merging(less, c, lo, i, j, hi) && i < j < hi && !less(c[j], c[i])
    requires StrictWeakOrder(less, Elements(c))
    ensures Merging(less, c, lo, i + 1, j, hi)
  {
    forall q | j <= q < hi ensures !less(c[q], c[i]) {
      assert c[i] in Elements(c) && c[j] in Elements(c) && c[q] in Elements(c);
      assert q > j ==> !less(c[q], c[j]);
    }
  }

  /** The element to move is less than everything it moves in front of. */
  lemma MoveIsForced(less: (Elem, Elem) -> bool, c: seq<Elem>, lo: nat, i: nat, j: nat, hi: nat, m: nat)
    requires Merging(less, c, lo, i, j, hi) && i <= m < j < hi && less(c[j], c[i])
    requires StrictWeakOrder(less, Elements(c))
    ensures less(c[j], c[m])
  {
    assert c[i] in Elements(c) && c[j] in Elements(c) && c[m] in Elements(c);
    assert m > i ==> !less(c[m], c[i]);
  }

  lemma MergeMove(less: (Elem, Elem) -> bool, c: seq<Elem>, lo: nat, i: nat, j: nat, hi: nat)
    requires Merging(less, c, lo, i, j, hi) && i < j < hi && less(c[j], c[i])
    requires StrictWeakOrder(less, Elements(c))
    ensures Merging(less, Moved(c, i, j), lo, i + 1, j + 1, hi)
  {
    MovedAt(c, i, j);
    var r := Moved(c, i, j);
    forall p, q | lo <= p < q < j + 1 ensures !less(r[q], r[p]) {
      if p == i {
        MoveIsForced(less, c, lo, i, j, hi, q - 1);
        assert c[j] in Elements(c) && c[q - 1] in Elements(c);
      }
    }
    forall p, q | lo <= p < i + 1 && j + 1 <= q < hi ensures !less(r[q], r[p]) {
      assert r[q] == c[q];
    }
  }

  lemma MergeDone(less: (Elem, Elem) -> bool, c: seq<Elem>, lo: nat, i: nat, j: nat, hi: nat)
    requires Merging(less, c, lo, i, j, hi) && (i == j || j == hi)
    ensures SortedIn(less, c, lo, hi)
  {
  }

  // ---------------------------------------------------------------- the list

  class List {
    const head: Elem
    const tail: Elem
    /** The elements between the sentinels, sentinels included; and a set that holds them. */
    ghost var chain: seq<Elem>
    ghost var nodes: set<Elem>

    ghost predicate Valid()
      reads this, nodes
    {
      && |chain| >= 2 && (forall i :: 0 <= i < |chain| ==> chain[i] in nodes)
      && Linked(chain) && chain[0] == head && chain[|chain| - 1] == tail
    }

    /** The list's elements, front to back. */
    ghost function Elems(): seq<Elem>
      reads this
    {
      if |chain| >= 2 then chain[1..|chain| - 1] else []
    }

    /** `list_init`. */
    constructor ()
      ensures Valid() && Elems() == [] && fresh(nodes)
    {
      head := new Elem;
      tail := new Elem;
      chain := [head, tail];
      nodes := {head, tail};
      new;
      head.prev := null;
      head.next := tail;
      tail.prev := head;
      tail.next := null;
    }

    /** `list_insert` before the element at position `k` of the chain. */
    method Insert(before: Elem, elem: Elem, ghost k: nat)
      requires Valid() && 1 <= k < |chain| && chain[k] == before && elem !in chain
      modifies this`chain, this`nodes, nodes, elem
      ensures Valid() && nodes == old(nodes) + {elem}
      ensures chain == old(chain)[..k] + [elem] + old(chain)[k..]
    {
      assert before.prev == chain[k - 1];
      elem.prev := before.prev;
      elem.next := before;
      before.prev.next := elem;
      before.prev := elem;
      chain := chain[..k] + [elem] + chain[k..];
      nodes := nodes + {elem};
    }

    /** `list_remove` of the interior element at position `k` of the chain. */
    method Remove(elem: Elem, ghost k: nat) returns (following: Elem)
      requires Valid() && 1 <= k < |chain| - 1 && chain[k] == elem
      modifies this`chain, nodes
      ensures Valid() && chain == old(chain)[..k] + old(chain)[k + 1..] && following == chain[k]
    {
      assert elem.prev == chain[k - 1] && elem.next == chain[k + 1];
      elem.prev.next := elem.next;
      elem.next.prev := elem.prev;
      following := elem.next;
      chain := chain[..k] + chain[k + 1..];
    }

    /** The first half of `list_splice`: the stretch from `i` to `j` is unlinked, and stays linked in itself. */
    method Cut(first: Elem, last: Elem, ghost i: nat, ghost j: nat)
      requires Valid() && 1 <= i < j < |chain| && chain[i] == first && chain[j - 1] == last
      modifies this`chain, chain[i - 1], chain[j]
      ensures Valid() && chain == old(chain)[..i] + old(chain)[j..] && Strand(old(chain)[i..j])
      ensures forall e :: e in old(chain)[i..j] ==> e !in chain
    {
      hide Linked;
      ghost var l, x, r := chain[..i], chain[i..j], chain[j..];
      Pieces(chain, i, j);
      assert first == x[0] && last == x[|x| - 1] && l[i - 1] in l && r[0] in r;
      Link(first.prev, last.next, l, r);
      chain := l + r;
      LinkedIsStrand(chain);
    }

    /**
     The second half of `list_splice`: a stretch of elements is linked in, before the element at position `k`, by
     four assignments to four different fields.
     */
    method Paste(before: Elem, first: Elem, last: Elem, ghost x: seq<Elem>, ghost k: nat)
      requires Valid() && 1 <= k < |chain| && chain[k] == before
      requires Strand(x) && x[0] == first && x[|x| - 1] == last && forall e :: e in x ==> e !in chain
      modifies this`chain, this`nodes, first, last, chain[k - 1], before
      ensures Valid() && chain == old(chain)[..k] + x + old(chain)[k..] && nodes == old(nodes) + Elements(x)
    {
      hide Linked, Strand;
      ghost var l, r := chain[..k], chain[k..];
      LinkedIsStrand(chain);
      StrandSplit(chain, k);
      BesidePieces(chain, x, k);
      Link(before.prev, first, l, x);
      Link(last, before, l + x, r);
      chain := l + x + r;
      nodes := nodes + Elements(x);
      LinkedIsStrand(chain);
    }

    /**
     `list_splice`: the elements from `first` up to `last`, of this list or another one, move in front of `before`.
     */
    method Splice(before: Elem, first: Elem, last: Elem, from: List, ghost k: nat, ghost i: nat, ghost j: nat)
      requires Valid() && 1 <= k < |chain| && chain[k] == before
      requires from.Valid() && 1 <= i <= j < |from.chain| && from.chain[i] == first && from.chain[j] == last
      requires if from == this then k < i || j <= k else forall e :: e in from.chain ==> e !in chain
      modifies this`chain, this`nodes, from`chain, nodes, from.nodes
      ensures Valid() && from.Valid() && nodes == old(nodes) + Elements(old(from.chain)[i..j])
      ensures from == this ==> chain == Spliced(old(chain), k, i, j)
      ensures from != this ==> chain == old(chain)[..k] + old(from.chain)[i..j] + old(chain)[k..]
      ensures from != this ==>
                  from.chain == old(from.chain)[..i] + old(from.chain)[j..] && from.nodes == old(from.nodes)
    {
      hide Linked, Strand, Spliced;
      ghost var c, d, x := chain, from.chain, from.chain[i..j];
      LinkedBounds(d, i, j);
      if first == last {
        SplicedNothing(c, d, k, i);
        return;
      }
      var end := last.prev;
      ghost var at := if from == this && j <= k then k - (j - i) else k;
      if from == this { SplicedIs(c, k, i, j); } else { StretchApart(c, d, k, i, j); }
      from.Cut(first, end, i, j);
      Paste(before, first, end, x, at);
    }

    /** The splice that `inplace_merge` calls for: of one element, within the list. */
    method SpliceOne(before: Elem, elem: Elem, ghost k: nat, ghost i: nat)
      requires Valid() && 1 <= k < i < |chain| - 1 && chain[k] == before && chain[i] == elem
      modifies this`chain, this`nodes, nodes
      ensures Valid() && nodes == old(nodes) && chain == Moved(old(chain), k, i)
    {
      hide Linked, Spliced, Moved;
      LinkedNext(chain, i);
      SplicedOne(chain, k, i);
      assert chain[i..i + 1] == [elem];
      Splice(before, elem, elem.next, this, k, i, i + 1);
    }

    /** `find_end_of_run` from the element at `i`, ending not after the one at `hi`. */
    method FindEndOfRun(a: Elem, b: Elem, less: (Elem, Elem) -> bool, ghost i: nat, ghost hi: nat)
      returns (e: Elem, ghost j: nat)
      requires Valid() && i < hi <= |Elems()| && chain[i + 1] == a && chain[hi + 1] == b
      requires StrictWeakOrder(less, Elements(Elems()))
      ensures e == chain[RunEnd(less, Elems(), i, hi) + 1] && j == RunEnd(less, Elems(), i, hi)
      ensures SortedIn(less, Elems(), i, j) && (j < hi ==> less(Elems()[j], Elems()[j - 1]))
    {
      hide StrictWeakOrder, Elements;
      ghost var s := Elems();
      assert a.next == chain[i + 2];
      e := a.next;
      j := i + 1;
      while e != b && !less(e, e.prev)
        invariant i < j <= hi && chain[j + 1] == e && SortedIn(less, s, i, j)
        invariant RunEnd(less, s, i, hi) == RunEnd(less, s, j - 1, hi)
        decreases hi - j
      {
        assert e.prev == chain[j] == s[j - 1] && e == s[j] && e.next == chain[j + 2];
        RunExtend(less, s, i, j);
        e := e.next;
        j := j + 1;
      }
      assert j < hi ==> e.prev == chain[j];
    }

    /** One step of `inplace_merge`: accept the head of the first run, or move the head of the second in front of it. */
    method MergeStep(a0: Elem, a1b0: Elem, less: (Elem, Elem) -> bool,
                     ghost s0: seq<Elem>, ghost s: seq<Elem>, ghost lo: nat, ghost i: nat, ghost j: nat, ghost hi: nat)
      returns (a0': Elem, a1b0': Elem, ghost i': nat, ghost j': nat)
      requires Valid() && |chain| == |s| + 2 && lo <= i < j < hi <= |s| && chain[i + 1] == a0 && chain[j + 1] == a1b0
      requires MergeState(less, s0, s, Elems(), lo, i, j, hi)
      modifies this`chain, this`nodes, nodes
      ensures Valid() && nodes == old(nodes) && |chain| == |s| + 2
      ensures i' == i + 1 && i' <= j' <= hi && chain[i' + 1] == a0' && chain[j' + 1] == a1b0'
      ensures chain[hi + 1] == old(chain)[hi + 1]
      ensures MergeState(less, s0, s, Elems(), lo, i', j', hi)
    {
      hide Moved, Linked, MergeState;
      assert a0 == Elems()[i] && a1b0 == Elems()[j];
      if !less(a1b0, a0) {
        MergeStateAdvance(less, s0, s, Elems(), lo, i, j, hi);
        LinkedNext(chain, i + 1);
        a0', a1b0', i', j' := a0.next, a1b0, i + 1, j;
      } else {
        MergeStateMove(less, s0, s, Elems(), lo, i, j, hi);
        MovedInner(chain, i + 1, j + 1);
        LinkedNext(chain, j + 1);
        a0', a1b0', i', j' := a0, a1b0.next, i + 1, j + 1;
        SpliceOne(a0, a1b0, i + 1, j + 1);
      }
    }

    /** `inplace_merge` of the runs at `lo..mid` and `mid..hi`; `s0` is any earlier order of the list. */
    method InplaceMerge(first: Elem, second: Elem, last: Elem, less: (Elem, Elem) -> bool,
                        ghost s0: seq<Elem>, ghost lo: nat, ghost mid: nat, ghost hi: nat)
      requires Valid() && lo < mid < hi <= |Elems()|
      requires chain[lo + 1] == first && chain[mid + 1] == second && chain[hi + 1] == last
      requires StrictWeakOrder(less, Elements(Elems())) && OnlyForced(less, s0, Elems())
      requires SortedIn(less, Elems(), lo, mid) && SortedIn(less, Elems(), mid, hi)
      modifies this`chain, this`nodes, nodes
      ensures Valid() && nodes == old(nodes)
      ensures Rearranged(old(Elems()), Elems(), lo, hi)
      ensures SortedIn(less, Elems(), lo, hi) && OnlyForced(less, s0, Elems())
    {
      hide StrictWeakOrder, Elements, OnlyForced, Moved, Rearranged, Merging, Linked, MergeState, SortedIn;
      ghost var s := Elems();
      ghost var i, j := lo, mid;
      MergeStart(less, s0, s, lo, mid, hi);
      var a0, a1b0 := first, second;
      while a0 != a1b0 && a1b0 != last
        invariant Valid() && nodes == old(nodes) && |chain| == |s| + 2
        invariant lo <= i <= j <= hi && chain[i + 1] == a0 && chain[j + 1] == a1b0 && chain[hi + 1] == last
        invariant MergeState(less, s0, s, Elems(), lo, i, j, hi)
        decreases hi - i
      {
        a0, a1b0, i, j := MergeStep(a0, a1b0, less, s0, s, lo, i, j, hi);
      }
      LinkedDistinct(chain, i + 1, j + 1);
      LinkedDistinct(chain, j + 1, hi + 1);
      MergeStateDone(less, s0, s, Elems(), lo, i, j, hi);
    }

    /**
     The body of a pass: merge the two runs that start at `p`.  A single run at the end
     is left alone, and the tail is returned; the source breaks out of the loop there.
     */
    method MergeNextRuns(a0: Elem, less: (Elem, Elem) -> bool, ghost s0: seq<Elem>, ghost s: seq<Elem>, ghost p: nat,
                         ghost cnt: nat)
      returns (next: Elem, ghost p': nat)
      requires Valid() && |chain| == |s| + 2 && p < |s| && chain[p + 1] == a0
      requires PassState(less, s0, s, Elems(), p, cnt)
      modifies this`chain, this`nodes, nodes
      ensures Valid() && nodes == old(nodes) && |chain| == |s| + 2
      ensures p < p' <= |s| && chain[p' + 1] == next
      ensures PassState(less, s0, s, Elems(), p', cnt + 1)
    {
      hide StrictWeakOrder, Elements, OnlyForced, Runs, Rearranged, Linked, SortedIn, PassState;
      PassOrder(less, s0, s, Elems(), p, cnt);
      var a1b0, q := FindEndOfRun(a0, tail, less, p, |s|);
      LinkedDistinct(chain, q + 1, |s| + 1);
      if a1b0 == tail {
        PassLast(less, s0, s, Elems(), p, cnt);
        return tail, |s|;
      }
      var b1, r := FindEndOfRun(a1b0, tail, less, q, |s|);
      ghost var t, c := Elems(), chain;
      InplaceMerge(a0, a1b0, b1, less, s0, p, q, r);
      PassPair(less, s0, s, t, Elems(), p, q, r, cnt);
      SameEnd(c, chain, p, r);
      next, p' := b1, r;
    }

    /**
     One pass of `list_sort`: merge the natural runs in pairs.  The number of runs
     output is half the number found, rounded up, and no more runs than that are left.
     */
    method Pass(less: (Elem, Elem) -> bool, ghost s0: seq<Elem>) returns (outputRunCnt: nat)
      requires Valid() && StrictWeakOrder(less, Elements(Elems())) && OnlyForced(less, s0, Elems())
      modifies this`chain, this`nodes, nodes
      ensures Valid() && nodes == old(nodes)
      ensures multiset(Elems()) == multiset(old(Elems())) && OnlyForced(less, s0, Elems())
      ensures outputRunCnt == (Runs(less, old(Elems())) + 1) / 2
      ensures Runs(less, Elems()) <= outputRunCnt
    {
      hide StrictWeakOrder, Elements, OnlyForced, Runs, Rearranged, Linked, SortedIn, PassState;
      ghost var s := Elems();
      ghost var p := 0;
      PassStart(less, s0, s);
      LinkedNext(chain, 0);
      var a0 := head.next;
      outputRunCnt := 0;
      while a0 != tail
        invariant Valid() && nodes == old(nodes) && |chain| == |s| + 2
        invariant p <= |s| && chain[p + 1] == a0
        invariant PassState(less, s0, s, Elems(), p, outputRunCnt)
        decreases |s| - p
      {
        outputRunCnt := outputRunCnt + 1;
        a0, p := MergeNextRuns(a0, less, s0, s, p, outputRunCnt - 1);
      }
      LinkedDistinct(chain, p + 1, |s| + 1);
      PassDone(less, s0, s, Elems(), p, outputRunCnt);
    }

    /**
     `list_sort`: a well-formed list of the same elements, in order, equal elements in
     their old order, after at most logarithmically many passes over the list.
     */
    method Sort(less: (Elem, Elem) -> bool) returns (ghost passes: nat)
      requires Valid() && StrictWeakOrder(less, Elements(Elems()))
      modifies this`chain, this`nodes, nodes
      ensures Valid() && nodes == old(nodes) && multiset(Elems()) == multiset(old(Elems()))
      ensures Sorted(less, Elems()) && Stable(less, old(Elems()), Elems())
      ensures passes <= PassBound(Runs(less, old(Elems())))
    {
      ghost var s0 := Elems();
      assert Distinct(s0);
      ForcedRefl(less, s0);
      hide StrictWeakOrder, Elements, OnlyForced, Runs, Linked, Sorted, Stable, Distinct, PassBound;
      var outputRunCnt := Pass(less, s0);
      passes := 1;
      PassBoundStep(Runs(less, s0), Runs(less, Elems()));
      while outputRunCnt > 1
        invariant Valid() && nodes == old(nodes)
        invariant multiset(Elems()) == multiset(s0) && OnlyForced(less, s0, Elems())
        invariant Runs(less, Elems()) <= outputRunCnt
        invariant outputRunCnt <= 1 ==> passes <= PassBound(Runs(less, s0))
        invariant outputRunCnt > 1 ==> passes + PassBound(Runs(less, Elems())) <= PassBound(Runs(less, s0))
        decreases outputRunCnt
      {
        SameElements(s0, Elems());
        ghost var r := Runs(less, Elems());
        outputRunCnt := Pass(less, s0);
        PassBoundStep(r, Runs(less, Elems()));
        passes := passes + 1;
      }
      SortEnd(less, s0, Elems(), chain);
    }

    /** `list_insert_ordered` into a sorted list: still sorted, with the element behind those equal to it. */
    method InsertOrdered(elem: Elem, less: (Elem, Elem) -> bool) returns (ghost k: nat)
      requires Valid() && elem !in chain && Sorted(less, Elems())
      requires StrictWeakOrder(less, Elements(Elems()) + {elem})
      modifies this`chain, this`nodes, nodes, elem
      ensures Valid() && nodes == old(nodes) + {elem}
      ensures k <= |old(Elems())| && Elems() == old(Elems())[..k] + [elem] + old(Elems())[k..]
      ensures Sorted(less, Elems())
      ensures forall i :: 0 <= i < |old(Elems())| ==> (k <= i <==> less(elem, old(Elems())[i]))
    {
      hide Linked, StrictWeakOrder, Sorted, Elements;
      ghost var s := Elems();
      LinkedNext(chain, 0);
      var e := head.next;
      k := 0;
      while e != tail && !less(elem, e)
        invariant Valid() && chain == old(chain) && nodes == old(nodes)
        invariant k <= |s| && chain[k + 1] == e
        invariant forall i :: 0 <= i < k ==> !less(elem, s[i])
        decreases |s| - k
      {
        LinkedNext(chain, k + 1);
        assert e == s[k];
        e := e.next;
        k := k + 1;
      }
      LinkedDistinct(chain, k + 1, |s| + 1);
      assert k < |s| ==> e == s[k];
      OrderedInsertion(less, s, elem, k);
      ghost var before := chain;
      Insert(e, elem, k + 1);
      InsertedElems(before, elem, k + 1);
    }
  }

  lemma InsertedElems(chain: seq<Elem>, x: Elem, k: nat)
    requires 0 < k < |chain|
    ensures (chain[..k] + [x] + chain[k..])[1..|chain|]
            == chain[1..|chain| - 1][..k - 1] + [x] + chain[1..|chain| - 1][k - 1..]
  {
  }

  lemma OrderedInsertion(less: (Elem, Elem) -> bool, s: seq<Elem>, x: Elem, k: nat)
    requires Sorted(less, s) && k <= |s| && StrictWeakOrder(less, Elements(s) + {x})
    requires forall i :: 0 <= i < k ==> !less(x, s[i])
    requires k < |s| ==> less(x, s[k])
    ensures Sorted(less, s[..k] + [x] + s[k..])
    ensures forall i :: k <= i < |s| ==> less(x, s[i])
  {
    var all := Elements(s) + {x};
    forall i | k <= i < |s| ensures less(x, s[i]) && !less(s[i], x) {
      assert s[i] in all && s[k] in all && x in all;
      assert i > k ==> !less(s[i], s[k]);
    }
  }

  /** The passes needed to merge `r` runs into one: each pass halves them, rounding up. */
  function PassBound(r: nat): (n: nat)
    ensures n >= 1
  {
    if r <= 2 then 1 else 1 + PassBound((r + 1) / 2)
  }

  lemma {:induction false} PassBoundMonotone(r: nat, r': nat)
    requires r' <= r
    ensures PassBound(r') <= PassBound(r)
  {
    if r' > 2 { PassBoundMonotone((r + 1) / 2, (r' + 1) / 2); }
  }

  lemma PassBoundStep(r: nat, r': nat)
    requires r' <= (r + 1) / 2
    ensures (r + 1) / 2 > 1 ==> 1 + PassBound(r') <= PassBound(r)
    ensures 1 <= PassBound(r)
  {
    if (r + 1) / 2 > 1 { PassBoundMonotone((r + 1) / 2, r'); }
  }

  /** `2^b` runs are merged in at most `b` passes (or one). */
  lemma {:induction false} PassBoundIsLogarithmic(r: nat, b: nat)
    requires r <= Pow2(b) && b >= 1
    ensures PassBound(r) <= b
  {
    if r > 2 { PassBoundIsLogarithmic((r + 1) / 2, b - 1); }
  }

  lemma SortEnd(less: (Elem, Elem) -> bool, s0: seq<Elem>, s: seq<Elem>, c: seq<Elem>)
    requires Linked(c) && s == c[1..|c| - 1] && Runs(less, s) <= 1 && StrictWeakOrder(less, Elements(s0))
    requires multiset(s) == multiset(s0) && OnlyForced(less, s0, s)
    ensures Sorted(less, s) && Stable(less, s0, s)
  {
    SameElements(s0, s);
    OneRunIsSorted(less, s);
    ForcedIsStable(less, s0, s);
  }

  /** How far a pass has come: `p` elements are done, in at most `cnt` runs, from twice as many. */
  ghost predicate PassState(less: (Elem, Elem) -> bool, s0: seq<Elem>, s: seq<Elem>, t: seq<Elem>, p: nat, cnt: nat) {
    && p <= |t| == |s| && StrictWeakOrder(less, Elements(t)) && OnlyForced(less, s0, t)
    && multiset(t) == multiset(s) && t[p..] == s[p..]
    && Runs(less, t[..p]) <= cnt
    && (if p < |s| then Runs(less, s[p..]) + 2 * cnt == Runs(less, s) else cnt == (Runs(less, s) + 1) / 2)
  }

  lemma PassStart(less: (Elem, Elem) -> bool, s0: seq<Elem>, s: seq<Elem>)
    requires StrictWeakOrder(less, Elements(s)) && OnlyForced(less, s0, s)
    ensures PassState(less, s0, s, s, 0, 0)
  {
    assert s[0..] == s && s[..0] == [];
  }

  lemma PassOrder(less: (Elem, Elem) -> bool, s0: seq<Elem>, s: seq<Elem>, t: seq<Elem>, p: nat, cnt: nat)
    requires PassState(less, s0, s, t, p, cnt)
    ensures StrictWeakOrder(less, Elements(t)) && OnlyForced(less, s0, t)
  {
  }

  lemma PassDone(less: (Elem, Elem) -> bool, s0: seq<Elem>, s: seq<Elem>, t: seq<Elem>, p: nat, cnt: nat)
    requires PassState(less, s0, s, t, p, cnt) && p == |s|
    ensures multiset(t) == multiset(s) && OnlyForced(less, s0, t)
    ensures Runs(less, t) <= cnt == (Runs(less, s) + 1) / 2
  {
    assert t[..p] == t;
  }

  /** A sorted stretch is one run. */
  lemma StretchIsOneRun(less: (Elem, Elem) -> bool, s: seq<Elem>, lo: nat, hi: nat)
    requires lo < hi <= |s| && SortedIn(less, s, lo, hi)
    ensures Runs(less, s[lo..hi]) == 1
  {
    SortedIsOneRun(less, s[lo..hi]);
  }

  /** An odd run is left over at the end. */
  lemma PassLast(less: (Elem, Elem) -> bool, s0: seq<Elem>, s: seq<Elem>, t: seq<Elem>, p: nat, cnt: nat)
    requires PassState(less, s0, s, t, p, cnt) && p < |s| && SortedIn(less, t, p, |t|)
    ensures PassState(less, s0, s, t, |s|, cnt + 1)
  {
    StretchIsOneRun(less, t, p, |t|);
    assert t[p..|t|] == t[p..];
    AtMost(less, t, p, |t|);
    assert t[..|t|] == t;
  }

  /** Appending a stretch that is one run adds at most one run. */
  lemma AtMost(less: (Elem, Elem) -> bool, t: seq<Elem>, p: nat, r: nat)
    requires p < r <= |t| && Runs(less, t[p..r]) == 1
    ensures Runs(less, t[..r]) <= Runs(less, t[..p]) + 1
  {
    assert t[..r] == t[..p] + t[p..r];
    if p > 0 { RunsConcat(less, t[..p], t[p..r]); }
  }

  /** A stretch that ends the list or is followed by a smaller element counts as one run of the rest. */
  lemma OneRunOff(less: (Elem, Elem) -> bool, s: seq<Elem>, p: nat, q: nat)
    requires p < q <= |s| && SortedIn(less, s, p, q) && (q < |s| ==> less(s[q], s[q - 1]))
    ensures Runs(less, s[p..]) == 1 + Runs(less, s[q..])
  {
    StretchIsOneRun(less, s, p, q);
    assert s[p..] == s[p..q] + s[q..];
    if q < |s| {
      RunsConcat(less, s[p..q], s[q..]);
    } else {
      assert s[p..] == s[p..q] && s[q..] == [];
    }
  }

  /** A rearrangement of the elements up to `hi` leaves the chain's element there in place. */
  lemma SameEnd(c: seq<Elem>, c': seq<Elem>, lo: nat, hi: nat)
    requires |c| >= 2 && |c'| >= 2 && c[|c| - 1] == c'[|c'| - 1] && hi < |c| - 1
    requires Rearranged(c[1..|c| - 1], c'[1..|c'| - 1], lo, hi)
    ensures |c'| == |c| && c'[hi + 1] == c[hi + 1]
  {
    var e, e' := c[1..|c| - 1], c'[1..|c'| - 1];
    if hi < |e| {
      assert e'[hi] == e'[hi..][0] == e[hi..][0] == e[hi];
    }
  }

  /** Merging the next two runs turns them into one. */
  lemma PassPair(less: (Elem, Elem) -> bool, s0: seq<Elem>, s: seq<Elem>, t: seq<Elem>, t': seq<Elem>, p: nat, q: nat,
                 r: nat, cnt: nat)
    requires PassState(less, s0, s, t, p, cnt) && p < q < r <= |s|
    requires SortedIn(less, t, p, q) && SortedIn(less, t, q, r)
    requires less(t[q], t[q - 1]) && (r < |t| ==> less(t[r], t[r - 1]))
    requires Rearranged(t, t', p, r) && SortedIn(less, t', p, r) && OnlyForced(less, s0, t')
    ensures PassState(less, s0, s, t', r, cnt + 1)
  {
    hide StrictWeakOrder, OnlyForced, Elements;
    OneRunOff(less, t, p, q);
    OneRunOff(less, t, q, r);
    assert t'[r..] == t[r..] == t[p..][r - p..] == s[p..][r - p..] == s[r..];
    StretchIsOneRun(less, t', p, r);
    AtMost(less, t', p, r);
    SameElements(t, t');
  }

  lemma LinkedNext(c: seq<Elem>, k: nat)
    requires Linked(c) && k < |c| - 1
    ensures c[k].next == c[k + 1]
  {
  }

  lemma LinkedDistinct(c: seq<Elem>, k: nat, m: nat)
    requires Linked(c) && k < |c| && m < |c|
    ensures c[k] == c[m] ==> k == m
  {
  }

  /** The state of a merge, together with what it has done to the order `s` the list had before and to `s0`. */
  ghost predicate MergeState(less: (Elem, Elem) -> bool, s0: seq<Elem>, s: seq<Elem>, t: seq<Elem>, lo: nat, i: nat,
      j: nat, hi: nat) {
    && StrictWeakOrder(less, Elements(t)) && Merging(less, t, lo, i, j, hi)
    && Rearranged(s, t, lo, hi) && OnlyForced(less, s0, t)
  }

  lemma MergeStart(less: (Elem, Elem) -> bool, s0: seq<Elem>, s: seq<Elem>, lo: nat, mid: nat, hi: nat)
    requires lo <= mid <= hi <= |s| && SortedIn(less, s, lo, mid) && SortedIn(less, s, mid, hi)
    requires StrictWeakOrder(less, Elements(s)) && OnlyForced(less, s0, s)
    ensures MergeState(less, s0, s, s, lo, lo, mid, hi)
  {
  }

  lemma MergeStateAdvance(less: (Elem, Elem) -> bool, s0: seq<Elem>, s: seq<Elem>, t: seq<Elem>, lo: nat, i: nat,
                          j: nat, hi: nat)
    requires MergeState(less, s0, s, t, lo, i, j, hi) && i < j < hi && !less(t[j], t[i])
    ensures MergeState(less, s0, s, t, lo, i + 1, j, hi)
  {
    MergeAdvance(less, t, lo, i, j, hi);
  }

  /** One move of a merge rearranges only the two runs, and only as the order forces it. */
  lemma MergeStateMove(less: (Elem, Elem) -> bool, s0: seq<Elem>, s: seq<Elem>, t: seq<Elem>, lo: nat, i: nat, j: nat,
                       hi: nat)
    requires MergeState(less, s0, s, t, lo, i, j, hi) && i < j < hi && less(t[j], t[i])
    ensures MergeState(less, s0, s, Moved(t, i, j), lo, i + 1, j + 1, hi)
  {
    MergeMove(less, t, lo, i, j, hi);
    forall m | i <= m < j ensures less(t[j], t[m]) { MoveIsForced(less, t, lo, i, j, hi, m); }
    MovedForced(less, s0, t, i, j);
    MovedSame(t, i, j);
    MovedAt(t, i, j);
    SameElements(t, Moved(t, i, j));
  }

  lemma MergeStateDone(less: (Elem, Elem) -> bool, s0: seq<Elem>, s: seq<Elem>, t: seq<Elem>, lo: nat, i: nat, j: nat,
                       hi: nat)
    requires MergeState(less, s0, s, t, lo, i, j, hi) && (i == j || j == hi)
    ensures Rearranged(s, t, lo, hi) && OnlyForced(less, s0, t) && SortedIn(less, t, lo, hi)
    ensures StrictWeakOrder(less, Elements(t))
  {
    MergeDone(less, t, lo, i, j, hi);
  }

  /** `s` has the elements of `s0`, in the same places outside `lo..hi`. */
  ghost predicate Rearranged(s0: seq<Elem>, s: seq<Elem>, lo: nat, hi: nat) {
    && lo <= hi <= |s| == |s0| && s[..lo] == s0[..lo] && s[hi..] == s0[hi..]
    && multiset(s) == multiset(s0)
  }

  lemma SameElements(s0: seq<Elem>, s: seq<Elem>)
    requires multiset(s0) == multiset(s)
    ensures Elements(s0) == Elements(s)
  {
    forall x ensures x in s0 <==> x in s {
      assert x in s0 <==> x in multiset(s0);
      assert x in s <==> x in multiset(s);
    }
  }

  /** A move between the sentinels is a move of the elements. */
  lemma MovedInner(c: seq<Elem>, i: nat, j: nat)
    requires 1 <= i <= j < |c| - 1
    ensures Moved(c, i, j)[1..|c| - 1] == Moved(c[1..|c| - 1], i - 1, j - 1)
    ensures i < j ==> Moved(c, i, j)[i + 1] == c[i]
    ensures forall k :: j < k < |c| ==> Moved(c, i, j)[k] == c[k]
  {
    MovedAt(c, i, j);
    var e := c[1..|c| - 1];
    MovedAt(e, i - 1, j - 1);
    assert forall k :: 0 <= k < |e| ==> e[k] == c[k + 1];
    var l, r := Moved(c, i, j)[1..|c| - 1], Moved(e, i - 1, j - 1);
    forall k | 0 <= k < |e| ensures l[k] == r[k] {
      assert l[k] == Moved(c, i, j)[k + 1];
    }
  }

  /** A run followed by an element not less than its last is a run. */
  lemma RunExtend(less: (Elem, Elem) -> bool, s: seq<Elem>, i: nat, j: nat)
    requires i < j < |s| && SortedIn(less, s, i, j) && !less(s[j], s[j - 1])
    requires StrictWeakOrder(less, Elements(s))
    ensures SortedIn(less, s, i, j + 1)
  {
    forall p | i <= p < j ensures !less(s[j], s[p]) {
      assert s[p] in Elements(s) && s[j - 1] in Elements(s) && s[j] in Elements(s);
      assert p < j - 1 ==> !less(s[j - 1], s[p]);
    }
  }
}
