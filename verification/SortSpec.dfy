/**
 What it means to sort a sequence of distinct elements under a strict weak order:
 order, stability, and the natural runs a sequence splits into.
 */
module SortSpec {
  import opened Base


  /** `less` is a strict weak order on the elements of `s`: asymmetric and negatively transitive. */
  ghost predicate StrictWeakOrder<T>(less: (T, T) -> bool, s: set<T>) {
    && (forall x, y :: x in s && y in s && less(x, y) ==> !less(y, x))
    && (forall x, y, z :: x in s && y in s && z in s && !less(x, y) && !less(y, z) ==> !less(x, z))
  }

  ghost function Elements<T>(s: seq<T>): set<T> {
    set x | x in s
  }

  /** No element is less than one before it. */
  ghost predicate Sorted<T>(less: (T, T) -> bool, s: seq<T>) {
    forall i, j :: 0 <= i < j < |s| ==> !less(s[j], s[i])
  }

  ghost predicate Before<T>(s: seq<T>, x: T, y: T) {
    exists i, j :: 0 <= i < j < |s| && s[i] == x && s[j] == y
  }

  /** Two elements of `s` are in the opposite order of `s0` only if the order calls for it. */
  ghost predicate OnlyForced<T>(less: (T, T) -> bool, s0: seq<T>, s: seq<T>) {
    forall i, j :: 0 <= i < j < |s| && Before(s0, s[j], s[i]) ==> less(s[i], s[j])
  }

  /** Elements that compare equal keep their order. */
  ghost predicate Stable<T>(less: (T, T) -> bool, s0: seq<T>, s: seq<T>) {
    forall i, j :: 0 <= i < j < |s| && !less(s[i], s[j]) && !less(s[j], s[i]) ==> Before(s0, s[i], s[j])
  }

  // ---------------------------------------------------------------- moving

  /** Element `b` moved to position `a` in front of the elements from `a` on. */
  function Moved<T>(s: seq<T>, a: nat, b: nat): (r: seq<T>)
    requires a <= b < |s|
    ensures |r| == |s|
  {
    s[..a] + [s[b]] + s[a..b] + s[b + 1..]
  }

  lemma MovedAt<T>(s: seq<T>, a: nat, b: nat)
    requires a <= b < |s|
    ensures forall i :: 0 <= i < |s| ==>
              Moved(s, a, b)[i] == if i < a || i > b then s[i] else if i == a then s[b] else s[i - 1]
  {
    assert Moved(s, a, b) == s[..a] + ([s[b]] + (s[a..b] + s[b + 1..]));
  }

  lemma MovedSame<T>(s: seq<T>, a: nat, b: nat)
    requires a <= b < |s|
    ensures multiset(Moved(s, a, b)) == multiset(s)
  {
    assert s == s[..a] + s[a..b] + [s[b]] + s[b + 1..];
  }

  /** Moving an element in front of larger ones keeps the order forced. */
  lemma MovedForced<T>(less: (T, T) -> bool, s0: seq<T>, s: seq<T>, a: nat, b: nat)
    requires OnlyForced(less, s0, s) && a <= b < |s|
    requires forall m :: a <= m < b ==> less(s[b], s[m])
    ensures OnlyForced(less, s0, Moved(s, a, b))
  {
    MovedAt(s, a, b);
    var r := Moved(s, a, b);
    forall i, j | 0 <= i < j < |r| && Before(s0, r[j], r[i])
      ensures less(r[i], r[j])
    {
      var p := if i < a || i > b then i else if i == a then b else i - 1;
      var q := if j < a || j > b then j else if j == a then b else j - 1;
      assert r[i] == s[p] && r[j] == s[q];
      if p < q {
        assert less(s[p], s[q]);
      }
    }
  }

  /** A sequence is stable with respect to itself ... */
  lemma ForcedRefl<T>(less: (T, T) -> bool, s: seq<T>)
    requires Distinct(s)
    ensures OnlyForced(less, s, s)
  {
  }

  /** ... and forced reordering of the same elements is stable. */
  lemma ForcedIsStable<T>(less: (T, T) -> bool, s0: seq<T>, s: seq<T>)
    requires Distinct(s) && multiset(s) == multiset(s0) && OnlyForced(less, s0, s)
    ensures Stable(less, s0, s)
  {
    forall i, j | 0 <= i < j < |s| && !less(s[i], s[j]) && !less(s[j], s[i])
      ensures Before(s0, s[i], s[j])
    {
      assert s[i] in multiset(s0) && s[j] in multiset(s0);
      var p :| 0 <= p < |s0| && s0[p] == s[i];
      var q :| 0 <= q < |s0| && s0[q] == s[j];
      assert p != q;
      assert !Before(s0, s[j], s[i]);
    }
  }

  // ------------------------------------------------------------------ runs

  /** Where the maximal stretch in nondecreasing order that starts at `i` ends, at `hi` at the latest. */
  function RunEnd<T>(less: (T, T) -> bool, s: seq<T>, i: nat, hi: nat): (j: nat)
    requires i < hi <= |s|
    ensures i < j <= hi
    decreases hi - i
  {
    if i + 1 == hi || less(s[i + 1], s[i]) then i + 1 else RunEnd(less, s, i + 1, hi)
  }

  /** The number of natural runs: maximal stretches in nondecreasing order. */
  function Runs<T>(less: (T, T) -> bool, s: seq<T>): (n: nat)
    ensures n == 0 <==> s == []
    ensures n <= |s|
  {
    if |s| <= 1 then |s|
    else Runs(less, s[1..]) + if less(s[1], s[0]) then 1 else 0
  }

  /** Joining two sequences joins at most one run of each. */
  lemma {:induction false} RunsConcat<T>(less: (T, T) -> bool, a: seq<T>, b: seq<T>)
    requires a != [] && b != []
    ensures Runs(less, a + b) ==
            Runs(less, a) + Runs(less, b) - if less(b[0], a[|a| - 1]) then 0 else 1
  {
    if |a| == 1 {
      assert (a + b)[1..] == b;
    } else {
      assert (a + b)[1..] == a[1..] + b;
      RunsConcat(less, a[1..], b);
    }
  }

  lemma {:induction false} SortedIsOneRun<T>(less: (T, T) -> bool, s: seq<T>)
    requires s != [] && Sorted(less, s)
    ensures Runs(less, s) == 1
  {
    if |s| > 1 {
      SortedIsOneRun(less, s[1..]);
    }
  }

  lemma {:induction false} OneRunIsSorted<T>(less: (T, T) -> bool, s: seq<T>)
    requires Runs(less, s) <= 1 && StrictWeakOrder(less, Elements(s))
    ensures Sorted(less, s)
  {
    if |s| > 1 {
      assert Elements(s[1..]) <= Elements(s);
      OneRunIsSorted(less, s[1..]);
      forall j | 0 < j < |s|
        ensures !less(s[j], s[0])
      {
        assert j > 1 ==> !less(s[1..][j - 1], s[1..][0]);
      }
    }
  }
}
