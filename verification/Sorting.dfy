/** Heapsort and binary search (lib/stdlib.c), in place on an array of bytes that holds elements of one size. */
module Sorting {
  import opened Base
  import opened Arithmetic

  // ------------------------------------------------------------ bytes and elements

  type Element = seq<byte>

  /** The offset of element `k`, in elements of `size` bytes. */
  function At(k: nat, size: nat): nat { k * size }

  /** The first `n` elements of `size` bytes each. */
  function Elements(b: seq<byte>, size: nat, n: nat): (s: seq<Element>)
    requires At(n, size) <= |b|
    ensures |s| == n
  {
    if n == 0 then [] else
    Within(n - 1, n, size);
    Elements(b, size, n - 1) + [b[At(n - 1, size)..At(n - 1, size) + size]]
  }

  lemma {:induction false} ElementIs(b: seq<byte>, size: nat, n: nat, k: nat)
    requires At(n, size) <= |b| && k < n
    ensures At(k, size) + size <= |b| && Elements(b, size, n)[k] == b[At(k, size)..At(k, size) + size]
  {
    hide At;
    Within(n - 1, n, size);
    if k < n - 1 { ElementIs(b, size, n - 1, k); }
  }

  /** An element lies within the array ... */
  lemma Within(k: nat, n: nat, size: nat)
    requires k < n
    ensures At(k, size) + size <= At(n, size)
  {
    MulAdd(k, 1, size);
    MulMono(k + 1, n, size);
  }

  predicate Clear(x: nat, p: nat, size: nat) { x + size <= p || p + size <= x }

  /** ... and beside the others. */
  lemma Beside(k: nat, m: nat, size: nat)
    ensures k == m || Clear(At(k, size), At(m, size), size)
  {
    hide At;
    if k < m { Within(k, m, size); } else if m < k { Within(m, k, size); }
  }

  /** The element whose bytes start at `p`. */
  method Read(a: array<byte>, p: nat, size: nat, ghost k: nat, ghost n: nat) returns (e: Element)
    requires k < n && p == At(k, size) && At(n, size) == a.Length
    ensures e == Elements(a[..], size, n)[k]
  {
    hide At, Elements;
    ElementIs(a[..], size, n, k);
    e := a[p..p + size];
  }

  /** Where the byte at `m` comes from once `done` bytes at `p` and at `q` have changed places. */
  function Source(p: nat, q: nat, done: nat, m: nat): nat {
    if p <= m < p + done then m - p + q else if q <= m < q + done then m - q + p else m
  }

  ghost predicate Exchanged(b: seq<byte>, b': seq<byte>, p: nat, q: nat, done: nat) {
    && |b'| == |b| && p + done <= |b| && q + done <= |b|
    && forall m :: 0 <= m < |b| ==> b'[m] == b[Source(p, q, done, m)]
  }

  lemma ExchangeMore(b: seq<byte>, b': seq<byte>, p: nat, q: nat, done: nat, size: nat)
    requires Exchanged(b, b', p, q, done) && done < size && p + size <= |b| && q + size <= |b|
    requires p == q || Clear(p, q, size)
    ensures Exchanged(b, b'[p + done := b'[q + done]][q + done := b'[p + done]], p, q, done + 1)
  {
    assert b'[p + done] == b[p + done] && b'[q + done] == b[q + done];
  }

  lemma ExchangedIsSwapped(b: seq<byte>, b': seq<byte>, size: nat, n: nat, i: nat, j: nat)
    requires At(n, size) <= |b| && i < n && j < n && Exchanged(b, b', At(i, size), At(j, size), size)
    ensures At(n, size) <= |b'| && Elements(b', size, n) == Swapped(Elements(b, size, n), i + 1, j + 1)
  {
    hide Elements, Exchanged, At;
    SameLength(b, b', At(i, size), At(j, size), size);
    var s, r := Elements(b, size, n), Elements(b', size, n);
    forall k | 0 <= k < n ensures r[k] == Swapped(s, i + 1, j + 1)[k] {
      ExchangedElement(b, b', size, n, i, j, k);
    }
  }

  lemma SameLength(b: seq<byte>, b': seq<byte>, p: nat, q: nat, size: nat)
    requires Exchanged(b, b', p, q, size)
    ensures |b'| == |b|
  {
  }

  lemma ExchangedElement(b: seq<byte>, b': seq<byte>, size: nat, n: nat, i: nat, j: nat, k: nat)
    requires At(n, size) <= |b| == |b'| && i < n && j < n && k < n && Exchanged(b, b', At(i, size), At(j, size), size)
    ensures Elements(b', size, n)[k] == Elements(b, size, n)[if k == i then j else if k == j then i else k]
  {
    hide Elements, Exchanged, At, Clear;
    var m := if k == i then j else if k == j then i else k;
    Beside(k, i, size);
    Beside(k, j, size);
    Beside(i, j, size);
    ElementIs(b', size, n, k);
    ElementIs(b, size, n, m);
    Alike(b, b', At(i, size), At(j, size), size, At(k, size), At(m, size));
  }

  /** The bytes at `x` now are the bytes at `y` before. */
  lemma Alike(b: seq<byte>, b': seq<byte>, p: nat, q: nat, size: nat, x: nat, y: nat)
    requires Exchanged(b, b', p, q, size) && x + size <= |b| == |b'| && y + size <= |b|
    requires p == q || Clear(p, q, size)
    requires (x == p && y == q) || (x == q && y == p) || (x == y && Clear(x, p, size) && Clear(x, q, size))
    ensures b'[x..x + size] == b[y..y + size]
  {
    var now, was := b'[x..x + size], b[y..y + size];
    forall m | 0 <= m < size ensures now[m] == was[m] {
      assert b'[x + m] == b[Source(p, q, size, x + m)];
    }
  }

  // -------------------------------------------------------------------- heaps

  /** A `strcmp`-type comparison: a total preorder. */
  ghost predicate Lawful<T(!new)>(cmp: (T, T) -> int) {
    && (forall x, y :: cmp(x, y) < 0 <==> cmp(y, x) > 0)
    && (forall x, y, z :: cmp(x, y) <= 0 && cmp(y, z) <= 0 ==> cmp(x, z) <= 0)
  }

  ghost predicate Sorted<T(!new)>(cmp: (T, T) -> int, s: seq<T>) {
    forall i, j :: 0 <= i < j < |s| ==> cmp(s[i], s[j]) <= 0
  }

  /** The element with 1-based index `i` is not larger than its parent. */
  ghost predicate Below<T(!new)>(cmp: (T, T) -> int, s: seq<T>, i: nat)
    requires 2 <= i <= |s|
  {
    cmp(s[i - 1], s[i / 2 - 1]) <= 0
  }

  /**
   Among the first `cnt` elements, those whose parent is `lo` or later are not larger than their parent, children of
   `hole` apart.
   */
  ghost predicate HeapBut<T(!new)>(cmp: (T, T) -> int, s: seq<T>, lo: nat, cnt: nat, hole: nat)
    requires cnt <= |s|
  {
    forall i :: 2 <= i <= cnt && i / 2 >= lo && i / 2 != hole ==> Below(cmp, s, i)
  }

  /** The children of `hole` are not larger than its parent. */
  ghost predicate Bridged<T(!new)>(cmp: (T, T) -> int, s: seq<T>, lo: nat, cnt: nat, hole: nat)
    requires cnt <= |s| && hole <= cnt
  {
    hole >= 2 && hole / 2 >= lo ==> forall i :: 2 <= i <= cnt && i / 2 == hole ==> cmp(s[i - 1], s[hole / 2 - 1]) <= 0
  }

  function Swapped<T>(s: seq<T>, i: nat, j: nat): (r: seq<T>)
    requires 1 <= i <= |s| && 1 <= j <= |s|
    ensures |r| == |s|
  {
    s[i - 1 := s[j - 1]][j - 1 := s[i - 1]]
  }

  /** The same elements, those from `cnt` on in their places. */
  ghost predicate Rearranged<T(!new)>(s: seq<T>, r: seq<T>, cnt: nat) {
    cnt <= |s| == |r| && r[cnt..] == s[cnt..] && multiset(r[..cnt]) == multiset(s[..cnt])
  }

  lemma RearrangedAll<T(!new)>(s: seq<T>, r: seq<T>, cnt: nat)
    requires Rearranged(s, r, cnt)
    ensures multiset(r) == multiset(s)
  {
    assert s == s[..cnt] + s[cnt..] && r == r[..cnt] + r[cnt..];
  }

  lemma SwapRearranges<T(!new)>(s0: seq<T>, s: seq<T>, i: nat, j: nat, cnt: nat)
    requires Rearranged(s0, s, cnt) && 1 <= i <= cnt && 1 <= j <= cnt
    ensures Rearranged(s0, Swapped(s, i, j), cnt)
  {
    var r := Swapped(s, i, j);
    assert r[..cnt] == Swapped(s[..cnt], i, j) && r[cnt..] == s[cnt..];
  }

  /** `max` is the index of the largest element among `i` and its children. */
  ghost predicate IsLargest<T(!new)>(cmp: (T, T) -> int, s: seq<T>, i: nat, cnt: nat, max: nat)
    requires cnt <= |s|
  {
    && 1 <= i <= max <= cnt && (max == i || (max / 2 == i && max >= 2 && cmp(s[max - 1], s[i - 1]) > 0))
    && forall k :: 2 <= k <= cnt && k / 2 == i ==> cmp(s[k - 1], s[max - 1]) <= 0
  }

  /** Swapping a parent with its largest child moves the hole down. */
  lemma SwapSinks<T(!new)>(cmp: (T, T) -> int, s: seq<T>, lo: nat, cnt: nat, hole: nat, max: nat)
    requires Lawful(cmp) && 1 <= lo <= hole <= cnt <= |s| && max <= cnt && max != hole
    requires IsLargest(cmp, s, hole, cnt, max)
    requires HeapBut(cmp, s, lo, cnt, hole) && Bridged(cmp, s, lo, cnt, hole)
    ensures var r := Swapped(s, hole, max); HeapBut(cmp, r, lo, cnt, max) && Bridged(cmp, r, lo, cnt, max)
  {
    var r := Swapped(s, hole, max);
    forall i | 2 <= i <= cnt && i / 2 >= lo && i / 2 != max ensures Below(cmp, r, i) {
      if i == hole {
        assert cmp(s[max - 1], s[hole / 2 - 1]) <= 0;
      } else if i / 2 != hole {
        assert Below(cmp, s, i);
      }
    }
    forall i | 2 <= i <= cnt && i / 2 == max ensures cmp(r[i - 1], r[max / 2 - 1]) <= 0 {
      assert Below(cmp, s, i);
    }
  }

  /** Nothing to do once the hole is not smaller than its children. */
  lemma HoleFilled<T(!new)>(cmp: (T, T) -> int, s: seq<T>, lo: nat, cnt: nat, hole: nat)
    requires cnt <= |s| && HeapBut(cmp, s, lo, cnt, hole) && IsLargest(cmp, s, hole, cnt, hole)
    ensures HeapBut(cmp, s, lo, cnt, 0)
  {
  }

  /** The root of a heap is its largest element. */
  lemma {:induction false} RootIsMax<T(!new)>(cmp: (T, T) -> int, s: seq<T>, cnt: nat, i: nat)
    requires Lawful(cmp) && 1 <= i <= cnt <= |s| && HeapBut(cmp, s, 1, cnt, 0)
    ensures cmp(s[i - 1], s[0]) <= 0
  {
    if i == 1 {
      assert cmp(s[0], s[0]) <= 0;
    } else {
      assert Below(cmp, s, i);
      RootIsMax(cmp, s, cnt, i / 2);
    }
  }

  /** `do_swap`, with 1-based indexes: byte by byte, two elements change places. */
  method Swap(a: array<byte>, i: nat, j: nat, size: nat, ghost n: nat)
    requires 1 <= i <= n && 1 <= j <= n && At(n, size) == a.Length
    modifies a
    ensures Elements(a[..], size, n) == Swapped(old(Elements(a[..], size, n)), i, j)
  {
    hide Elements, Swapped, Exchanged, At;
    var p, q := At(i - 1, size), At(j - 1, size);
    Within(i - 1, n, size);
    Within(j - 1, n, size);
    Beside(i - 1, j - 1, size);
    ghost var b := a[..];
    NothingExchanged(b, p, q);
    for m := 0 to size
      invariant Exchanged(b, a[..], p, q, m)
    {
      ExchangeMore(b, a[..], p, q, m, size);
      var t := a[p + m];
      a[p + m] := a[q + m];
      a[q + m] := t;
    }
    ExchangedIsSwapped(b, a[..], size, n, i - 1, j - 1);
  }

  lemma NothingExchanged(b: seq<byte>, p: nat, q: nat)
    requires p <= |b| && q <= |b|
    ensures Exchanged(b, b, p, q, 0)
  {
  }

  /** `do_compare`, with 1-based indexes. */
  method Compare(cmp: (Element, Element) -> int, a: array<byte>, i: nat, j: nat, size: nat, ghost n: nat)
    returns (c: int)
    requires 1 <= i <= n && 1 <= j <= n && At(n, size) == a.Length
    ensures c == cmp(Elements(a[..], size, n)[i - 1], Elements(a[..], size, n)[j - 1])
  {
    hide Elements, At;
    var x := Read(a, At(i - 1, size), size, i - 1, n);
    var y := Read(a, At(j - 1, size), size, j - 1, n);
    c := cmp(x, y);
  }

  /** The index of the largest element among `i` and its children. */
  method LargestOf(cmp: (Element, Element) -> int, a: array<byte>, i: nat, cnt: nat, size: nat, ghost n: nat)
    returns (max: nat)
    requires Lawful(cmp) && 1 <= i <= cnt <= n && At(n, size) == a.Length
    ensures i <= max <= cnt && IsLargest(cmp, Elements(a[..], size, n), i, cnt, max)
  {
    hide Lawful, IsLargest, Elements, At;
    var left, right := 2 * i, 2 * i + 1;
    max := i;
    if left <= cnt {
      var c := Compare(cmp, a, left, max, size, n);
      if c > 0 { max := left; }
    }
    ghost var first := max;
    if right <= cnt {
      var c := Compare(cmp, a, right, max, size, n);
      if c > 0 { max := right; }
    }
    PickedLargest(cmp, Elements(a[..], size, n), i, cnt, first, max);
  }

  /** `heapify`: floats element `i0` down the heap of the first `cnt` elements. */
  method Heapify(cmp: (Element, Element) -> int, a: array<byte>, i0: nat, cnt: nat, size: nat, ghost n: nat)
    requires Lawful(cmp) && 1 <= i0 <= cnt <= n && At(n, size) == a.Length
    requires HeapBut(cmp, Elements(a[..], size, n), i0 + 1, cnt, 0)
    modifies a
    ensures HeapBut(cmp, Elements(a[..], size, n), i0, cnt, 0)
    ensures Rearranged(old(Elements(a[..], size, n)), Elements(a[..], size, n), cnt)
  {
    hide Lawful, HeapBut, Bridged, IsLargest, Rearranged, Swapped, Elements, At;
    ghost var s0, s := Elements(a[..], size, n), Elements(a[..], size, n);
    StartSinking(cmp, s, i0, cnt);
    var i := i0;
    var max := LargestOf(cmp, a, i, cnt, size, n);
    while max != i
      invariant i0 <= i <= max <= cnt && s == Elements(a[..], size, n) && IsLargest(cmp, s, i, cnt, max)
      invariant HeapBut(cmp, s, i0, cnt, i) && Bridged(cmp, s, i0, cnt, i) && Rearranged(s0, s, cnt)
      decreases cnt - i
    {
      SwapSinks(cmp, s, i0, cnt, i, max);
      SwapRearranges(s0, s, i, max, cnt);
      Swap(a, i, max, size, n);
      s := Elements(a[..], size, n);
      i := max;
      max := LargestOf(cmp, a, i, cnt, size, n);
    }
    HoleFilled(cmp, s, i0, cnt, i);
  }

  /** `sort`. */
  method Sort(cmp: (Element, Element) -> int, a: array<byte>, cnt: nat, size: nat)
    requires Lawful(cmp) && size > 0 && At(cnt, size) == a.Length
    modifies a
    ensures Sorted(cmp, Elements(a[..], size, cnt))
    ensures multiset(Elements(a[..], size, cnt)) == multiset(old(Elements(a[..], size, cnt)))
  {
    hide Lawful, HeapBut, Rearranged, Swapped, Settled, Sorted, Elements, At;
    ghost var s0, s := Elements(a[..], size, cnt), Elements(a[..], size, cnt);
    var i: nat := cnt / 2;
    LeavesAreHeap(cmp, s, cnt);
    while i > 0
      invariant i <= cnt / 2 && s == Elements(a[..], size, cnt)
      invariant HeapBut(cmp, s, i + 1, cnt, 0) && multiset(s) == multiset(s0)
    {
      Heapify(cmp, a, i, cnt, size, cnt);
      RearrangedAll(s, Elements(a[..], size, cnt), cnt);
      s := Elements(a[..], size, cnt);
      i := i - 1;
    }
    i := cnt;
    NothingSettled(cmp, s);
    while i > 1
      invariant i <= cnt && s == Elements(a[..], size, cnt)
      invariant HeapBut(cmp, s, 1, i, 0) && multiset(s) == multiset(s0) && Settled(cmp, s, i)
    {
      TakeMax(cmp, s, i);
      SelfRearranged(s);
      SwapRearranges(s, s, 1, i, cnt);
      Swap(a, 1, i, size, cnt);
      ghost var r := Elements(a[..], size, cnt);
      RearrangedAll(s, r, cnt);
      Heapify(cmp, a, 1, i - 1, size, cnt);
      s := Elements(a[..], size, cnt);
      RearrangedAll(r, s, i - 1);
      SettledKept(cmp, r, s, i - 1);
      i := i - 1;
    }
    AllSettled(cmp, s, i);
  }

  /** `binary_search`: where a matching element of a sorted array starts, if and only if there is one. */
  method BinarySearch(cmp: (Element, Element) -> int, key: Element, a: array<byte>, cnt: nat, size: nat)
    returns (r: Option<nat>)
    requires Lawful(cmp) && size > 0 && At(cnt, size) == a.Length && Sorted(cmp, Elements(a[..], size, cnt))
    ensures var s := Elements(a[..], size, cnt);
            match r
            case Some(p) => exists k :: 0 <= k < cnt && p == At(k, size) && cmp(key, s[k]) == 0
            case None => forall k :: 0 <= k < cnt ==> cmp(key, s[k]) != 0
  {
    hide Elements, Lawful, Sorted, Narrowed, At;
    ghost var s, f, l := Elements(a[..], size, cnt), 0, cnt;
    var first, last := 0, At(cnt, size);
    FirstAt(size);
    StartSearch(cmp, s, key);
    while first < last
      invariant 0 <= f <= l <= cnt && first == At(f, size) && last == At(l, size) && Narrowed(cmp, s, key, f, l)
      decreases l - f
    {
      var range := (last - first) / size;
      var middle := first + At(range / 2, size);
      ghost var m := Halfway(f, l, size);
      var e := Read(a, middle, size, m, cnt);
      var c := cmp(key, e);
      Narrow(cmp, s, key, f, l, m);
      if c < 0 {
        last, l := middle, m;
      } else if c > 0 {
        NextAt(m, size);
        first, f := middle + size, m + 1;
      } else {
        return Some(middle);
      }
    }
    if f < l { Within(f, l, size); }
    EndSearch(cmp, s, key, f);
    return None;
  }

  /** Elements before `f` are too small, those from `l` on too large. */
  ghost predicate Narrowed<T(!new)>(cmp: (T, T) -> int, s: seq<T>, key: T, f: nat, l: nat) {
    && f <= l <= |s|
    && (forall i :: 0 <= i < f ==> cmp(key, s[i]) > 0) && (forall i :: l <= i < |s| ==> cmp(key, s[i]) < 0)
  }

  lemma StartSearch<T(!new)>(cmp: (T, T) -> int, s: seq<T>, key: T)
    ensures Narrowed(cmp, s, key, 0, |s|)
  {
  }

  lemma EndSearch<T(!new)>(cmp: (T, T) -> int, s: seq<T>, key: T, f: nat)
    requires Narrowed(cmp, s, key, f, f)
    ensures forall k :: 0 <= k < |s| ==> cmp(key, s[k]) != 0
  {
  }

  /** A comparison with an element in between narrows the search. */
  lemma Narrow<T(!new)>(cmp: (T, T) -> int, s: seq<T>, key: T, f: nat, l: nat, m: nat)
    requires Lawful(cmp) && Sorted(cmp, s) && Narrowed(cmp, s, key, f, l) && f <= m < l
    ensures cmp(key, s[m]) < 0 ==> Narrowed(cmp, s, key, f, m)
    ensures cmp(key, s[m]) > 0 ==> Narrowed(cmp, s, key, m + 1, l)
  {
    BeyondMiddle(cmp, s, key, m);
  }

  lemma FirstAt(size: nat)
    ensures At(0, size) == 0
  {
  }

  lemma NextAt(k: nat, size: nat)
    ensures At(k + 1, size) == At(k, size) + size
  {
    MulAdd(k, 1, size);
  }

  /** Half of the range, in elements and in bytes. */
  lemma Halfway(f: nat, l: nat, size: nat) returns (m: nat)
    requires size > 0 && f <= l && At(f, size) < At(l, size)
    ensures m == f + (l - f) / 2 < l && (At(l, size) - At(f, size)) / size == l - f
    ensures At(f, size) + At((l - f) / 2, size) == At(m, size)
  {
    MulAdd(l - f, f, size);
    MulAdd(l - f, 1, size);
    DivUnique((l - f) * size, size, l - f);
    m := f + (l - f) / 2;
    MulAdd(f, (l - f) / 2, size);
  }

  /** The elements from `i` on are sorted, and none before is larger than any of them. */
  ghost predicate Settled<T(!new)>(cmp: (T, T) -> int, s: seq<T>, i: nat)
    requires i <= |s|
  {
    forall j, k :: 0 <= j < k < |s| && i <= k ==> cmp(s[j], s[k]) <= 0
  }

  /** Putting the root behind the heap settles it. */
  lemma TakeMax<T(!new)>(cmp: (T, T) -> int, s: seq<T>, i: nat)
    requires Lawful(cmp) && 2 <= i <= |s| && HeapBut(cmp, s, 1, i, 0) && Settled(cmp, s, i)
    ensures var r := Swapped(s, 1, i); Settled(cmp, r, i - 1) && HeapBut(cmp, r, 2, i - 1, 0)
  {
    var r := Swapped(s, 1, i);
    forall j, k | 0 <= j < k < |r| && i - 1 <= k ensures cmp(r[j], r[k]) <= 0 {
      if k == i - 1 { RootIsMax(cmp, s, i, if j == 0 then i else j + 1); }
    }
    forall c | 2 <= c <= i - 1 && c / 2 >= 2 ensures Below(cmp, r, c) { assert Below(cmp, s, c); }
  }

  /** Rearranging the elements before `i` keeps the rest settled. */
  lemma SettledKept<T(!new)>(cmp: (T, T) -> int, s: seq<T>, r: seq<T>, i: nat)
    requires i <= |s| && Settled(cmp, s, i) && Rearranged(s, r, i)
    ensures i <= |r| && Settled(cmp, r, i)
  {
    forall j, k | 0 <= j < k < |r| && i <= k ensures cmp(r[j], r[k]) <= 0 {
      assert r[k] == r[i..][k - i] == s[k];
      if j < i {
        assert r[j] == r[..i][j] && r[j] in multiset(r[..i]);
        assert r[j] in s[..i];
        var m :| 0 <= m < i && s[..i][m] == r[j];
        assert s[m] == r[j];
      } else {
        assert r[j] == r[i..][j - i] == s[j];
      }
    }
  }

  lemma BeyondMiddle<T(!new)>(cmp: (T, T) -> int, s: seq<T>, key: T, m: nat)
    requires Lawful(cmp) && Sorted(cmp, s) && m < |s|
    ensures cmp(key, s[m]) < 0 ==> forall i :: m <= i < |s| ==> cmp(key, s[i]) < 0
    ensures cmp(key, s[m]) > 0 ==> forall i :: 0 <= i <= m ==> cmp(key, s[i]) > 0
  {
    forall i | m < i < |s| && cmp(key, s[m]) < 0 ensures cmp(key, s[i]) < 0 {
      assert cmp(s[m], s[i]) <= 0;
    }
    forall i | 0 <= i < m && cmp(key, s[m]) > 0 ensures cmp(key, s[i]) > 0 {
      assert cmp(s[i], s[m]) <= 0;
    }
  }

  lemma StartSinking<T(!new)>(cmp: (T, T) -> int, s: seq<T>, i: nat, cnt: nat)
    requires 1 <= i <= cnt <= |s| && HeapBut(cmp, s, i + 1, cnt, 0)
    ensures HeapBut(cmp, s, i, cnt, i) && Bridged(cmp, s, i, cnt, i) && Rearranged(s, s, cnt)
  {
  }

  lemma SelfRearranged<T(!new)>(s: seq<T>)
    ensures Rearranged(s, s, |s|)
  {
  }

  /** Elements of the second half have no children. */
  lemma LeavesAreHeap<T(!new)>(cmp: (T, T) -> int, s: seq<T>, cnt: nat)
    requires cnt <= |s|
    ensures HeapBut(cmp, s, cnt / 2 + 1, cnt, 0)
  {
  }

  lemma NothingSettled<T(!new)>(cmp: (T, T) -> int, s: seq<T>)
    ensures Settled(cmp, s, |s|)
  {
  }

  lemma AllSettled<T(!new)>(cmp: (T, T) -> int, s: seq<T>, i: nat)
    requires i <= 1 && i <= |s| && Settled(cmp, s, i)
    ensures Sorted(cmp, s)
  {
  }

  /** The two comparisons of `heapify`: first with the left child, then with the right one. */
  lemma PickedLargest<T(!new)>(cmp: (T, T) -> int, s: seq<T>, i: nat, cnt: nat, first: nat, max: nat)
    requires Lawful(cmp) && 1 <= i <= cnt <= |s|
    requires first == if 2 * i <= cnt && cmp(s[2 * i - 1], s[i - 1]) > 0 then 2 * i else i
    requires max == if 2 * i + 1 <= cnt && cmp(s[2 * i], s[first - 1]) > 0 then 2 * i + 1 else first
    ensures IsLargest(cmp, s, i, cnt, max)
  {
    assert cmp(s[max - 1], s[max - 1]) <= 0;
    forall k | 2 <= k <= cnt && k / 2 == i ensures cmp(s[k - 1], s[max - 1]) <= 0 {
      assert k == 2 * i || k == 2 * i + 1;
    }
  }
}
