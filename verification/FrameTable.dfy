/**
 The frame table's clock (vm/frame.c): the circular list of frames, the hand, and
 the second-chance choice of the frame to evict.
 */
module FrameTable {

  /** A user page of a process: thread and virtual page number. */
  datatype PageKey = PageKey(pid: nat, upage: nat)

  /** A present page-table entry. */
  datatype Pte = Pte(kpage: nat, writable: bool, accessed: bool, dirty: bool)

  /** The present entries of every process's page directory. */
  type PageMap = map<PageKey, Pte>

  /** `struct frame`: the kernel page, the user page it holds, and whether it has been filled. */
  datatype Frame = Frame(key: PageKey, kpage: nat, loaded: bool)

  /**
   The hand: on the list's head or tail sentinel, on the `i`th frame, or on a
   list element that has been freed.
   */
  datatype Hand = Head | At(i: nat) | Tail | Dangling

  ghost predicate HandOk(h: Hand, n: nat) {
    match h
    case At(i) => i < n
    case Dangling => false
    case _ => true
  }

  // ------------------------------------------------------------ the hand

  /** `list_next` in a list of `n` elements. */
  function Next(h: Hand, n: nat): (r: Hand) {
    match h
    case Head => if n > 0 then At(0) else Tail
    case At(i) => if i + 1 < n then At(i + 1) else Tail
    case _ => h
  }

  /** `check_and_set_hand`. */
  function Settle(h: Hand, n: nat): (r: Hand)
    ensures HandOk(h, n) && n > 0 ==> r.At? && r.i < n
  {
    var h1 := if h == Head then Next(h, n) else h;
    if h1 == Tail && n > 0 then At(0) else h1
  }

  /**
   The hand after element `k` of `n` is unlinked and freed: it first steps off the
   element, and then every later element moves up by one.
   */
  function AfterRemove(h: Hand, n: nat, k: nat): (r: Hand)
    requires k < n
  {
    var h1 := if h == At(k) then Settle(Next(h, n), n) else h;
    match h1
    case At(j) => if j < k then h1 else if j == k then Dangling else At(j - 1)
    case _ => h1
  }

  /** Removal leaves the hand on a freed element exactly when the list held one frame, under the hand. */
  lemma RemoveDanglesIff(h: Hand, n: nat, k: nat)
    requires k < n && HandOk(h, n)
    ensures HandOk(AfterRemove(h, n, k), n - 1) <==> !(n == 1 && h == At(0))
    ensures n >= 2 ==> AfterRemove(h, n, k) != Dangling
  {
  }

  /** Removal moves the hand only if it was on the removed frame, and then to the next one in the circle. */
  lemma RemoveKeepsFrame(frames: seq<Frame>, h: Hand, k: nat)
    requires k < |frames| && |frames| >= 2 && h.At? && h.i < |frames|
    ensures var rest := frames[..k] + frames[k + 1..]; var h' := AfterRemove(h, |frames|, k);
            && h'.At? && h'.i < |rest|
            && rest[h'.i] == frames[if h.i != k then h.i else if k + 1 < |frames| then k + 1 else 0]
  {
  }

  // ------------------------------------------------------- second chance

  /** The position `j` steps after `i` in a circle of `n`. */
  function Pos(i: nat, j: nat, n: nat): (p: nat)
    requires i < n && j < n
    ensures p < n
  {
    if i + j < n then i + j else i + j - n
  }

  predicate Accessed(pd: PageMap, f: Frame) {
    f.key in pd && pd[f.key].accessed
  }

  /** A frame the clock stops at. */
  predicate Evictable(pd: PageMap, f: Frame) {
    f.loaded && !Accessed(pd, f)
  }

  /** The number of steps from `i` to the first evictable frame at or after step `j`; `n` if there is none. */
  function FirstEvictable(frames: seq<Frame>, pd: PageMap, i: nat, j: nat): (r: nat)
    requires i < |frames| && j <= |frames|
    ensures j <= r <= |frames|
    ensures r < |frames| ==> Evictable(pd, frames[Pos(i, r, |frames|)])
    ensures forall s :: j <= s < r ==> !Evictable(pd, frames[Pos(i, s, |frames|)])
    decreases |frames| - j
  {
    if j == |frames| || Evictable(pd, frames[Pos(i, j, |frames|)]) then j
    else FirstEvictable(frames, pd, i, j + 1)
  }

  /** Likewise for the first loaded frame. */
  function FirstLoaded(frames: seq<Frame>, i: nat, j: nat): (r: nat)
    requires i < |frames| && j <= |frames|
    ensures j <= r <= |frames|
    ensures r < |frames| ==> frames[Pos(i, r, |frames|)].loaded
    ensures forall s :: j <= s < r ==> !frames[Pos(i, s, |frames|)].loaded
    decreases |frames| - j
  {
    if j == |frames| || frames[Pos(i, j, |frames|)].loaded then j
    else FirstLoaded(frames, i, j + 1)
  }

  /** The user pages of the loaded frames the hand passes in its first `c` steps. */
  function Passed(frames: seq<Frame>, i: nat, c: nat): (keys: set<PageKey>)
    requires i < |frames| && c <= |frames|
  {
    set j | 0 <= j < c && frames[Pos(i, j, |frames|)].loaded :: frames[Pos(i, j, |frames|)].key
  }

  /** `pagedir_set_accessed (..., false)` for a set of pages. */
  function ClearAccessed(pd: PageMap, keys: set<PageKey>): (r: PageMap)
    ensures r.Keys == pd.Keys
    ensures forall k :: k in pd ==> r[k] == if k in keys then pd[k].(accessed := false) else pd[k]
  {
    map k | k in pd :: if k in keys then pd[k].(accessed := false) else pd[k]
  }

  predicate SomeLoaded(frames: seq<Frame>) {
    exists k :: 0 <= k < |frames| && frames[k].loaded
  }

  /**
   The frame chosen by a scan from position `i`: the first loaded frame that has not
   been accessed, or the first loaded frame if all of them have.
   */
  function Victim(frames: seq<Frame>, pd: PageMap, i: nat): (v: nat)
    requires i < |frames| && SomeLoaded(frames)
    ensures v < |frames| && frames[v].loaded
  {
    var n := |frames|;
    var e := FirstEvictable(frames, pd, i, 0);
    if e < n then Pos(i, e, n)
    else
      SomeLoadedFound(frames, i);
      Pos(i, FirstLoaded(frames, i, 0), n)
  }

  /** The page map after that scan: the loaded frames passed in the first sweep lose their accessed bit. */
  function Scanned(frames: seq<Frame>, pd: PageMap, i: nat): (r: PageMap)
    requires i < |frames|
    ensures r.Keys == pd.Keys
  {
    ClearAccessed(pd, Passed(frames, i, FirstEvictable(frames, pd, i, 0)))
  }

  /** The number of steps from `i` to `k`. */
  function Distance(i: nat, k: nat, n: nat): (d: nat)
    requires i < n && k < n
    ensures d < n && Pos(i, d, n) == k
  {
    if k >= i then k - i else k + n - i
  }

  lemma SomeLoadedFound(frames: seq<Frame>, i: nat)
    requires i < |frames| && SomeLoaded(frames)
    ensures FirstLoaded(frames, i, 0) < |frames|
  {
    var k :| 0 <= k < |frames| && frames[k].loaded;
    var d := Distance(i, k, |frames|);
    assert frames[Pos(i, d, |frames|)].loaded;
  }

  ghost predicate DistinctKeys(frames: seq<Frame>) {
    forall i, j :: 0 <= i < j < |frames| && frames[i].loaded && frames[j].loaded ==> frames[i].key != frames[j].key
  }

  /** What the scan chooses and what it clears, without reference to the sweep. */
  lemma SecondChance(frames: seq<Frame>, pd: PageMap, i: nat, k: nat)
    requires i < |frames| && k < |frames| && DistinctKeys(frames)
    requires SomeLoaded(frames)
    requires frames[k].loaded && frames[k].key in pd
    ensures var v := Victim(frames, pd, i); var n := |frames|;
            var unaccessed := exists j :: 0 <= j < n && Evictable(pd, frames[j]);
            && (unaccessed ==> Evictable(pd, frames[v]))
            && (Evictable(pd, frames[k]) || !unaccessed ==> Distance(i, v, n) <= Distance(i, k, n))
            && Accessed(Scanned(frames, pd, i), frames[k])
               == (Accessed(pd, frames[k]) && unaccessed && Distance(i, v, n) < Distance(i, k, n))
  {
    var n := |frames|;
    var e := FirstEvictable(frames, pd, i, 0);
    var d := Distance(i, k, n);
    var v := Victim(frames, pd, i);
    if j :| 0 <= j < n && Evictable(pd, frames[j]) {
      assert frames[j] == frames[Pos(i, Distance(i, j, n), n)];
      assert e < n && Distance(i, v, n) == e;
    } else {
      assert e == n;
      SomeLoadedFound(frames, i);
      assert Distance(i, v, n) == FirstLoaded(frames, i, 0);
    }
    PassedIff(frames, i, e, k);
  }

  /** A loaded frame's page is among those passed in `c` steps iff the frame itself was passed. */
  lemma PassedIff(frames: seq<Frame>, i: nat, c: nat, k: nat)
    requires i < |frames| && c <= |frames| && k < |frames| && frames[k].loaded && DistinctKeys(frames)
    ensures frames[k].key in Passed(frames, i, c) <==> Distance(i, k, |frames|) < c
  {
    var n := |frames|;
    var d := Distance(i, k, n);
    if d < c {
      assert frames[Pos(i, d, n)].loaded && frames[Pos(i, d, n)].key == frames[k].key;
    }
    if frames[k].key in Passed(frames, i, c) {
      var j :| 0 <= j < c && frames[Pos(i, j, n)].loaded && frames[Pos(i, j, n)].key == frames[k].key;
      assert Pos(i, j, n) == k;
      assert j == d;
    }
  }
}
