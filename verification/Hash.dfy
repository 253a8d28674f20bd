/**
 The resizing hash table (lib/kernel/hash.c).  Machine words are integers and the bitwise AND is
 defined on their binary digits.
 */
module Hash {
  import opened Base
  import Arithmetic

  // --------------------------------------------------------------- bit tricks

  /** Bitwise AND. */
  function And(x: nat, y: nat): (r: nat) {
    if x == 0 || y == 0 then 0 else 2 * And(x / 2, y / 2) + (x % 2) * (y % 2)
  }

  /** The value of the lowest bit that is one. */
  function LowBit(x: nat): (r: nat)
    requires x > 0
    ensures 0 < r <= x
  {
    if x % 2 == 1 then 1 else 2 * LowBit(x / 2)
  }

  ghost predicate IsPow2(x: nat)
    decreases x
  {
    x == 1 || (x > 1 && x % 2 == 0 && IsPow2(x / 2))
  }

  /** The largest power of two that is not larger. */
  function Largest(x: nat): (r: nat)
    requires x > 0
    ensures r <= x < 2 * r && IsPow2(r)
  {
    if x == 1 then 1 else 2 * Largest(x / 2)
  }

  /** `turn_off_least_1bit`. */
  function TurnOffLeast(x: nat): (r: nat)
    requires x > 0
  {
    And(x, x - 1)
  }

  lemma AndSelfStep(x: nat)
    ensures And(x, x) == if x == 0 then 0 else 2 * And(x / 2, x / 2) + x % 2
  {
    hide And;
    AndUnfold(x, x);
    if x % 2 == 1 { assert (x % 2) * (x % 2) == 1; }
  }

  lemma AndUnfold(x: nat, y: nat)
    ensures And(x, y) == if x == 0 || y == 0 then 0 else 2 * And(x / 2, y / 2) + (x % 2) * (y % 2)
  {
  }

  lemma {:induction false} AndSelf(x: nat)
    ensures And(x, x) == x
  {
    hide And;
    AndSelfStep(x);
    if x > 0 { AndSelf(x / 2); }
  }

  /** `x & (x - 1)` takes off the lowest one bit. */
  lemma {:induction false} TurnOffIs(x: nat)
    requires x > 0
    ensures TurnOffLeast(x) == x - LowBit(x)
  {
    if x % 2 == 1 {
      AndSelf(x / 2);
      assert (x - 1) / 2 == x / 2;
    } else {
      TurnOffIs(x / 2);
      assert (x - 1) / 2 == x / 2 - 1 && (x - 1) % 2 == 1;
    }
  }

  /** `is_power_of_2` is what it says. */
  lemma {:induction false} PowerTest(x: nat)
    requires x > 0
    ensures TurnOffLeast(x) == 0 <==> IsPow2(x)
  {
    TurnOffIs(x);
    LowBitAll(x);
  }

  lemma {:induction false} LowBitAll(x: nat)
    requires x > 0
    ensures LowBit(x) == x <==> IsPow2(x)
  {
    if x > 1 && x % 2 == 0 { LowBitAll(x / 2); }
  }

  /** Taking off low bits keeps the largest power of two below. */
  lemma {:induction false} LargestKept(x: nat)
    requires x > 0 && !IsPow2(x)
    ensures LowBit(x) < x && Largest(x - LowBit(x)) == Largest(x)
  {
    LowBitAll(x);
    if x % 2 == 1 {
      assert (x - 1) / 2 == x / 2;
    } else {
      LargestKept(x / 2);
      assert (x - LowBit(x)) / 2 == x / 2 - LowBit(x / 2);
    }
  }

  lemma {:induction false} LargestOfPow2(x: nat)
    requires IsPow2(x)
    ensures Largest(x) == x
  {
    if x > 1 { LargestOfPow2(x / 2); }
  }

  /** Masking with one less than a power of two is the remainder. */
  lemma {:induction false} MaskIsMod(h: nat, c: nat)
    requires IsPow2(c)
    ensures And(h, c - 1) == h % c < c
  {
    if c > 1 {
      var k := c / 2;
      MaskIsMod(h / 2, k);
      assert c == 2 * k;
      if k > 1 {
        assert (c - 1) / 2 == k - 1 && (c - 1) % 2 == 1;
      } else {
        assert c == 2;
      }
      ModHalves(h, k);
    }
  }

  lemma ModHalves(h: nat, k: nat)
    requires k > 0
    ensures h % (2 * k) == 2 * (h / 2 % k) + h % 2
  {
    var a, r := h / 2 / k, h / 2 % k;
    assert h / 2 == a * k + r;
    assert h == (2 * k) * a + (2 * r + h % 2);
    ModUnique(h, 2 * k, a, 2 * r + h % 2);
  }

  lemma ModUnique(n: int, d: int, q: int, r: int)
    requires d > 0 && n == d * q + r && 0 <= r < d
    ensures n % d == r
  {
    assert q * d <= n < (q + 1) * d;
    Arithmetic.DivUnique(n, d, q);
  }

  /** How many buckets `rehash` wants. */
  function Best(elemCnt: nat): (c: nat)
    ensures c >= 4 && IsPow2(c)
  {
    Largest(if elemCnt / 2 < 4 then 4 else elemCnt / 2)
  }

  /** The loop of `rehash` that finds that number. */
  method BestCount(elemCnt: nat) returns (c: nat)
    ensures c == Best(elemCnt)
  {
    c := elemCnt / 2;
    if c < 4 { c := 4; }
    PowerTest(c);
    while TurnOffLeast(c) != 0
      invariant c > 0 && Largest(c) == Best(elemCnt) && (TurnOffLeast(c) == 0 <==> IsPow2(c))
      decreases c
    {
      TurnOffIs(c);
      LargestKept(c);
      c := TurnOffLeast(c);
      PowerTest(c);
    }
    LargestOfPow2(c);
  }

  // -------------------------------------------------------------------- tables

  /** The client's hash and comparison: elements that compare equal hash equal. */
  datatype Order<!E(!new)> = Order(hash: E -> nat, less: (E, E) -> bool) {
    predicate Same(x: E, y: E) { !less(x, y) && !less(y, x) }

    ghost predicate Lawful() {
      && (forall x :: Same(x, x))
      && (forall x, y, z :: Same(x, y) && Same(y, z) ==> Same(x, z))
      && (forall x, y :: Same(x, y) ==> hash(x) == hash(y))
    }
  }

  /** `find_bucket`. */
  function BucketOf<E(!new)>(o: Order<E>, e: E, cnt: nat): (i: nat)
    requires cnt > 0
  {
    And(o.hash(e), cnt - 1)
  }

  /** `find_elem`: the first equal element of a bucket. */
  function FindIn<E(!new)>(o: Order<E>, b: seq<E>, e: E, i: nat): (r: Option<nat>)
    requires i <= |b|
    ensures r.Some? ==> i <= r.value < |b| && o.Same(b[r.value], e)
    ensures r.None? ==> forall k :: i <= k < |b| ==> !o.Same(b[k], e)
    decreases |b| - i
  {
    if i == |b| then None else if o.Same(b[i], e) then Some(i) else FindIn(o, b, e, i + 1)
  }

  ghost predicate Apart<E(!new)>(o: Order<E>, s: seq<E>) {
    forall i, j :: 0 <= i < j < |s| ==> !o.Same(s[i], s[j])
  }

  /** Every element is in the bucket its hash says, and no two elements of a bucket are equal. */
  ghost predicate Placed<E(!new)>(o: Order<E>, bs: seq<seq<E>>) {
    && (forall i, e :: 0 <= i < |bs| && e in bs[i] ==> BucketOf(o, e, |bs|) == i)
    && (forall i :: 0 <= i < |bs| ==> Apart(o, bs[i]))
  }

  /** All elements, bucket by bucket. */
  function Flatten<E>(bs: seq<seq<E>>): (s: seq<E>) {
    if bs == [] then [] else bs[0] + Flatten(bs[1..])
  }

  /** The elements of the table. */
  ghost function Elements<E(!new)>(bs: seq<seq<E>>): (s: set<E>) {
    set e | e in Flatten(bs)
  }

  lemma {:induction false} InFlatten<E(!new)>(bs: seq<seq<E>>, e: E)
    ensures e in Flatten(bs) <==> exists i :: 0 <= i < |bs| && e in bs[i]
  {
    if bs != [] {
      InFlatten(bs[1..], e);
      if exists i :: 0 <= i < |bs| && e in bs[i] {
        var i :| 0 <= i < |bs| && e in bs[i];
        if i > 0 { assert bs[1..][i - 1] == bs[i]; }
      }
      if exists i :: 0 <= i < |bs[1..]| && e in bs[1..][i] {
        var i :| 0 <= i < |bs[1..]| && e in bs[1..][i];
        assert bs[i + 1] == bs[1..][i];
      }
    }
  }

  // ------------------------------------------------------------ bucket changes

  lemma BucketInRange<E(!new)>(o: Order<E>, e: E, cnt: nat)
    requires IsPow2(cnt)
    ensures cnt > 0 && BucketOf(o, e, cnt) < cnt
  {
    MaskIsMod(o.hash(e), cnt);
  }

  /** One bucket changes: the rest of the elements stay. */
  lemma {:induction false} FlattenPut<E(!new)>(bs: seq<seq<E>>, i: nat, b: seq<E>)
    requires i < |bs|
    ensures |Flatten(bs[i := b])| == |Flatten(bs)| - |bs[i]| + |b|
  {
    if i == 0 {
      assert bs[i := b][1..] == bs[1..];
    } else {
      FlattenPut(bs[1..], i - 1, b);
      assert bs[i := b][1..] == bs[1..][i - 1 := b];
    }
  }

  lemma PutElements<E(!new)>(bs: seq<seq<E>>, i: nat, b: seq<E>, e: E)
    requires i < |bs|
    ensures e in Elements(bs[i := b]) <==> e in b || exists j :: 0 <= j < |bs| && j != i && e in bs[j]
  {
    InFlatten(bs[i := b], e);
    if e in b { assert e in bs[i := b][i]; }
    if exists j :: 0 <= j < |bs| && j != i && e in bs[j] {
      var j :| 0 <= j < |bs| && j != i && e in bs[j];
      assert e in bs[i := b][j];
    }
  }

  lemma InBucket<E(!new)>(o: Order<E>, bs: seq<seq<E>>, e: E)
    requires Placed(o, bs) && IsPow2(|bs|)
    ensures BucketOf(o, e, |bs|) < |bs| && (e in Elements(bs) <==> e in bs[BucketOf(o, e, |bs|)])
  {
    BucketInRange(o, e, |bs|);
    InFlatten(bs, e);
  }

  /** An equal element can only be in the bucket the element itself belongs in. */
  lemma SameBucket<E(!new)>(o: Order<E>, bs: seq<seq<E>>, e: E, x: E)
    requires o.Lawful() && Placed(o, bs) && IsPow2(|bs|) && x in Elements(bs) && o.Same(x, e)
    ensures BucketOf(o, e, |bs|) < |bs| && x in bs[BucketOf(o, e, |bs|)]
  {
    InBucket(o, bs, x);
  }

  /** `insert_elem` at the front of the bucket. */
  function Push<E(!new)>(o: Order<E>, bs: seq<seq<E>>, e: E): (r: seq<seq<E>>)
    ensures |r| == |bs|
  {
    if |bs| == 0 || BucketOf(o, e, |bs|) >= |bs| then bs
    else bs[BucketOf(o, e, |bs|) := [e] + bs[BucketOf(o, e, |bs|)]]
  }

  lemma PushKeeps<E(!new)>(o: Order<E>, bs: seq<seq<E>>, e: E)
    requires o.Lawful() && Placed(o, bs) && IsPow2(|bs|) && forall x :: x in Elements(bs) ==> !o.Same(x, e)
    ensures Placed(o, Push(o, bs, e)) && Elements(Push(o, bs, e)) == Elements(bs) + {e}
    ensures |Flatten(Push(o, bs, e))| == |Flatten(bs)| + 1
  {
    var i := BucketOf(o, e, |bs|);
    BucketInRange(o, e, |bs|);
    var b := bs[i];
    var bs' := Push(o, bs, e);
    FlattenPut(bs, i, [e] + b);
    forall x ensures x in Elements(bs') <==> x == e || x in Elements(bs) {
      PutElements(bs, i, [e] + b, x);
      InFlatten(bs, x);
    }
    forall k | 0 <= k < |b| ensures !o.Same(b[k], e) && !o.Same(e, b[k]) {
      InFlatten(bs, b[k]);
    }
    assert Apart(o, [e] + b);
  }

  function Without<E>(b: seq<E>, j: nat): (r: seq<E>)
    requires j < |b|
  {
    b[..j] + b[j + 1..]
  }

  /** `remove_elem`: the bucket without its element `j`. */
  lemma RemoveKeeps<E(!new)>(o: Order<E>, bs: seq<seq<E>>, i: nat, j: nat)
    requires o.Lawful() && Placed(o, bs) && IsPow2(|bs|) && i < |bs| && j < |bs[i]|
    ensures var bs' := bs[i := Without(bs[i], j)];
            Placed(o, bs') && Elements(bs') == Elements(bs) - {bs[i][j]} && |Flatten(bs')| == |Flatten(bs)| - 1
  {
    var b := bs[i];
    var b' := Without(b, j);
    var bs' := bs[i := b'];
    FlattenPut(bs, i, b');
    WithoutIs(o, b, j);
    forall x ensures x in Elements(bs') <==> x in Elements(bs) && x != b[j] {
      PutElements(bs, i, b', x);
      InFlatten(bs, x);
      assert b[j] in bs[i] && BucketOf(o, b[j], |bs|) == i;
      forall m | 0 <= m < |bs| && m != i && x in bs[m] ensures x != b[j] { assert BucketOf(o, x, |bs|) == m; }
    }
  }

  lemma WithoutIs<E(!new)>(o: Order<E>, b: seq<E>, j: nat)
    requires o.Lawful() && Apart(o, b) && j < |b|
    ensures Apart(o, Without(b, j)) && forall x :: x in Without(b, j) <==> x in b && x != b[j]
  {
    var r := Without(b, j);
    forall x | x in b && x != b[j] ensures x in r {
      var k :| 0 <= k < |b| && b[k] == x;
      assert r[if k < j then k else k - 1] == x;
    }
    forall k | 0 <= k < |r| ensures r[k] == b[if k < j then k else k + 1] { }
    forall x | x in r ensures x in b && x != b[j] {
      var k :| 0 <= k < |r| && r[k] == x;
      var m := if k < j then k else k + 1;
      assert b[m] == x && (m < j || j < m);
    }
  }

  // -------------------------------------------------------------------- rehash

  function NoElements<E>(cnt: nat): (bs: seq<seq<E>>)
    ensures |bs| == cnt && forall i :: 0 <= i < cnt ==> bs[i] == []
  {
    seq(cnt, _ => [])
  }

  /** The elements of `s` moved, in order, to the front of their new buckets. */
  function Distribute<E(!new)>(o: Order<E>, s: seq<E>, cnt: nat): (bs: seq<seq<E>>)
    ensures |bs| == cnt
  {
    if s == [] then NoElements(cnt) else Push(o, Distribute(o, s[..|s| - 1], cnt), s[|s| - 1])
  }

  lemma {:induction false} EmptyBuckets<E>(bs: seq<seq<E>>)
    requires forall i :: 0 <= i < |bs| ==> bs[i] == []
    ensures Flatten(bs) == []
  {
    if bs != [] { EmptyBuckets(bs[1..]); }
  }

  /** Moving the elements loses none and places each. */
  lemma {:induction false} DistributeKeeps<E(!new)>(o: Order<E>, s: seq<E>, cnt: nat)
    requires o.Lawful() && Apart(o, s) && IsPow2(cnt)
    ensures var bs := Distribute(o, s, cnt); Placed(o, bs) && Elements(bs) == (set e | e in s) && |Flatten(bs)| == |s|
  {
    hide Placed, Apart, IsPow2, Push, Flatten;
    if s == [] {
      NoneDistributed<E>(o, cnt);
    } else {
      var r, e := s[..|s| - 1], s[|s| - 1];
      ApartFront(o, s);
      DistributeKeeps(o, r, cnt);
      PushKeeps(o, Distribute(o, r, cnt), e);
      assert s == r + [e];
    }
  }

  lemma NoneDistributed<E(!new)>(o: Order<E>, cnt: nat)
    ensures var bs := NoElements<E>(cnt); Placed(o, bs) && Elements(bs) == {} && Flatten(bs) == []
  {
    EmptyBuckets(NoElements<E>(cnt));
  }

  lemma ApartFront<E(!new)>(o: Order<E>, s: seq<E>)
    requires Apart(o, s) && s != []
    ensures var r := s[..|s| - 1]; Apart(o, r) && forall x :: x in r ==> !o.Same(x, s[|s| - 1])
  {
  }

  /** No two elements of a table are equal, whatever buckets they are in. */
  lemma {:induction false} FlattenApart<E(!new)>(o: Order<E>, bs: seq<seq<E>>, k: nat)
    requires o.Lawful() && Placed(o, bs) && k <= |bs|
    ensures Apart(o, Flatten(bs[k..]))
    decreases |bs| - k
  {
    if k < |bs| {
      FlattenApart(o, bs, k + 1);
      var rest := Flatten(bs[k + 1..]);
      assert bs[k..][1..] == bs[k + 1..];
      forall i, j | 0 <= i < |bs[k]| && 0 <= j < |rest| ensures !o.Same(bs[k][i], rest[j]) {
        InFlatten(bs[k + 1..], rest[j]);
        var m :| 0 <= m < |bs[k + 1..]| && rest[j] in bs[k + 1..][m];
        assert bs[k + 1..][m] == bs[k + 1 + m] && bs[k][i] in bs[k];
        assert BucketOf(o, rest[j], |bs|) == k + 1 + m && BucketOf(o, bs[k][i], |bs|) == k;
      }
    }
  }

  // ---------------------------------------------------------------- operations

  /** `struct hash`: the buckets and the number of elements. */
  datatype Table<E> = Table(buckets: seq<seq<E>>, cnt: nat)

  ghost predicate Inv<E(!new)>(o: Order<E>, t: Table<E>) {
    IsPow2(|t.buckets|) && |t.buckets| >= 4 && Placed(o, t.buckets) && t.cnt == |Flatten(t.buckets)|
  }

  /** `rehash`; `ok` says whether memory for the new buckets is available. */
  function Rehash<E(!new)>(o: Order<E>, t: Table<E>, ok: bool): (r: Table<E>) {
    if Best(t.cnt) == |t.buckets| || !ok then t else Table(Distribute(o, Flatten(t.buckets), Best(t.cnt)), t.cnt)
  }

  /** Rehashing keeps the elements; with memory it leaves the best number of buckets. */
  lemma RehashKeeps<E(!new)>(o: Order<E>, t: Table<E>, ok: bool)
    requires o.Lawful() && Inv(o, t)
    ensures var r := Rehash(o, t, ok);
            Inv(o, r) && Elements(r.buckets) == Elements(t.buckets)
                && (|r.buckets| == if ok then Best(t.cnt) else |t.buckets|)
  {
    FlattenApart(o, t.buckets, 0);
    assert t.buckets[0..] == t.buckets;
    DistributeKeeps(o, Flatten(t.buckets), Best(t.cnt));
  }

  /** `hash_find`. */
  function Find<E(!new)>(o: Order<E>, t: Table<E>, e: E): (r: Option<E>)
    requires |t.buckets| > 0
  {
    var i := BucketOf(o, e, |t.buckets|);
    if i >= |t.buckets| then None
    else match FindIn(o, t.buckets[i], e, 0)
      case None => None
      case Some(j) => Some(t.buckets[i][j])
  }

  /** The table without the element equal to `e`, if there is one. */
  function Removed<E(!new)>(o: Order<E>, t: Table<E>, e: E): (r: Table<E>)
    requires |t.buckets| > 0
  {
    var i := BucketOf(o, e, |t.buckets|);
    if i >= |t.buckets| then t
    else match FindIn(o, t.buckets[i], e, 0)
      case None => t
      case Some(j) => Table(t.buckets[i := Without(t.buckets[i], j)], if t.cnt == 0 then 0 else t.cnt - 1)
  }

  /** `hash_insert`. */
  function Insert<E(!new)>(o: Order<E>, t: Table<E>, e: E, ok: bool): (r: (Table<E>, Option<E>))
    requires |t.buckets| > 0
  {
    var found := Find(o, t, e);
    (Rehash(o, if found.None? then Table(Push(o, t.buckets, e), t.cnt + 1) else t, ok), found)
  }

  /** `hash_replace`. */
  function Replace<E(!new)>(o: Order<E>, t: Table<E>, e: E, ok: bool): (r: (Table<E>, Option<E>))
    requires |t.buckets| > 0
  {
    var t' := Removed(o, t, e);
    (Rehash(o, Table(Push(o, t'.buckets, e), t'.cnt + 1), ok), Find(o, t, e))
  }

  /** `hash_delete`; the assertion in it can never fail, so a missing element is no error. */
  function Delete<E(!new)>(o: Order<E>, t: Table<E>, e: E, ok: bool): (r: (Table<E>, Option<E>))
    requires |t.buckets| > 0
  {
    if Find(o, t, e).Some? then (Rehash(o, Removed(o, t, e), ok), Find(o, t, e)) else (t, None)
  }

  // --------------------------------------------------------------- refinement

  /** The elements of a set equal to `e`: at most one in the sets a table stands for. */
  ghost function Equals<E(!new)>(o: Order<E>, s: set<E>, e: E): set<E> {
    set x | x in s && o.Same(x, e)
  }

  /** A lookup finds the element of the set that is equal, if and only if there is one. */
  lemma FindRefines<E(!new)>(o: Order<E>, t: Table<E>, e: E)
    requires o.Lawful() && Inv(o, t)
    ensures Equals(o, Elements(t.buckets), e) == match Find(o, t, e) case None => {} case Some(x) => {x}
  {
    var i := BucketOf(o, e, |t.buckets|);
    BucketInRange(o, e, |t.buckets|);
    var b := t.buckets[i];
    var r := FindIn(o, b, e, 0);
    forall x | x in Elements(t.buckets) && o.Same(x, e) ensures r.Some? && x == b[r.value] {
      SameBucket(o, t.buckets, e, x);
      var k :| 0 <= k < |b| && b[k] == x;
      assert o.Same(b[k], e);
      if r.Some? && k != r.value { assert o.Same(b[r.value], e) && o.Same(e, b[k]) && Apart(o, b); }
    }
    if r.Some? { InFlatten(t.buckets, b[r.value]); }
  }

  lemma RemovedRefines<E(!new)>(o: Order<E>, t: Table<E>, e: E)
    requires o.Lawful() && Inv(o, t)
    ensures var r := Removed(o, t, e);
            Inv(o, r) && Elements(r.buckets) == Elements(t.buckets) - Equals(o, Elements(t.buckets), e)
    ensures Removed(o, t, e).cnt == t.cnt - |Equals(o, Elements(t.buckets), e)|
  {
    FindRefines(o, t, e);
    var i := BucketOf(o, e, |t.buckets|);
    BucketInRange(o, e, |t.buckets|);
    match FindIn(o, t.buckets[i], e, 0)
    case None =>
    case Some(j) => RemoveKeeps(o, t.buckets, i, j);
  }

  lemma PushRefines<E(!new)>(o: Order<E>, t: Table<E>, e: E)
    requires o.Lawful() && Inv(o, t) && Equals(o, Elements(t.buckets), e) == {}
    ensures var r := Table(Push(o, t.buckets, e), t.cnt + 1);
            Inv(o, r) && Elements(r.buckets) == Elements(t.buckets) + {e}
  {
    forall x | x in Elements(t.buckets) ensures !o.Same(x, e) { assert x !in Equals(o, Elements(t.buckets), e); }
    PushKeeps(o, t.buckets, e);
  }

  // --------------------------------------------------------------------- runs

  datatype Op<E> = DoInsert(e: E) | DoReplace(e: E) | DoDelete(e: E) | DoFind(e: E)

  function Step<E(!new)>(o: Order<E>, t: Table<E>, op: Op<E>, ok: bool): (r: (Table<E>, Option<E>))
    requires |t.buckets| > 0
  {
    match op
    case DoInsert(e) => Insert(o, t, e, ok)
    case DoReplace(e) => Replace(o, t, e, ok)
    case DoDelete(e) => Delete(o, t, e, ok)
    case DoFind(e) => (t, Find(o, t, e))
  }

  /** The same operations on a finite set. */
  ghost function SetStep<E(!new)>(o: Order<E>, s: set<E>, op: Op<E>): set<E> {
    match op
    case DoInsert(e) => if Equals(o, s, e) == {} then s + {e} else s
    case DoReplace(e) => s - Equals(o, s, e) + {e}
    case DoDelete(e) => s - Equals(o, s, e)
    case DoFind(e) => s
  }

  /**
   Each operation does to the table what it does to the set, whether or not memory for new buckets is
   available, and returns the equal element that was there; with memory the number of buckets is the best.
   */
  lemma StepRefines<E(!new)>(o: Order<E>, t: Table<E>, op: Op<E>, ok: bool)
    requires o.Lawful() && Inv(o, t)
    ensures var (t', r) := Step(o, t, op, ok); var s := Elements(t.buckets);
            && Inv(o, t') && Elements(t'.buckets) == SetStep(o, s, op)
            && Equals(o, s, op.e) == (match r case None => {} case Some(x) => {x})
            && (ok && !op.DoFind? && !(op.DoDelete? && r.None?) ==> |t'.buckets| == Best(t'.cnt))
  {
    hide Inv, Elements, Push, Removed, Find;
    var e := op.e;
    SomeBuckets(o, t);
    FindRefines(o, t, e);
    match op
    case DoInsert(_) =>
      if Find(o, t, e).None? {
        PushRefines(o, t, e);
        RehashKeeps(o, Table(Push(o, t.buckets, e), t.cnt + 1), ok);
      } else {
        RehashKeeps(o, t, ok);
      }
    case DoReplace(_) => ReplaceRefines(o, t, e, ok);
    case DoDelete(_) =>
      if Find(o, t, e).Some? {
        RemovedRefines(o, t, e);
        RehashKeeps(o, Removed(o, t, e), ok);
      } else {
        assert Elements(t.buckets) - {} == Elements(t.buckets);
      }
    case DoFind(_) =>
  }

  lemma ReplaceRefines<E(!new)>(o: Order<E>, t: Table<E>, e: E, ok: bool)
    requires o.Lawful() && Inv(o, t)
    ensures var (t', r) := Step(o, t, DoReplace(e), ok);
            && Inv(o, t') && Elements(t'.buckets) == SetStep(o, Elements(t.buckets), DoReplace(e))
            && (ok ==> |t'.buckets| == Best(t'.cnt))
  {
    hide Inv, Elements, Push, Removed, Find;
    SomeBuckets(o, t);
    RemovedRefines(o, t, e);
    var t' := Removed(o, t, e);
    assert Equals(o, Elements(t'.buckets), e) == {};
    PushRefines(o, t', e);
    RehashKeeps(o, Table(Push(o, t'.buckets, e), t'.cnt + 1), ok);
  }

  lemma SomeBuckets<E(!new)>(o: Order<E>, t: Table<E>)
    requires Inv(o, t)
    ensures |t.buckets| >= 4
  {
  }

  /** `hash_init`. */
  function Empty<E>(): (t: Table<E>) { Table(NoElements(4), 0) }

  function Run<E(!new)>(o: Order<E>, t: Table<E>, ops: seq<(Op<E>, bool)>): (r: Table<E>)
    decreases |ops|
  {
    if ops == [] || |t.buckets| == 0 then t else Run(o, Step(o, t, ops[0].0, ops[0].1).0, ops[1..])
  }

  ghost function SetRun<E(!new)>(o: Order<E>, s: set<E>, ops: seq<(Op<E>, bool)>): set<E>
    decreases |ops|
  {
    if ops == [] then s else SetRun(o, SetStep(o, s, ops[0].0), ops[1..])
  }

  /** Over every run, with any allocation failures, the table stands for the set and has a power of two of buckets. */
  lemma {:induction false} RunRefines<E(!new)>(o: Order<E>, t: Table<E>, ops: seq<(Op<E>, bool)>)
    requires o.Lawful() && Inv(o, t)
    ensures var r := Run(o, t, ops); Inv(o, r) && Elements(r.buckets) == SetRun(o, Elements(t.buckets), ops)
    decreases |ops|
  {
    hide Inv, Elements, Step, SetStep;
    SomeBuckets(o, t);
    if ops != [] {
      StepRefines(o, t, ops[0].0, ops[0].1);
      RunRefines(o, Step(o, t, ops[0].0, ops[0].1).0, ops[1..]);
    }
  }

  lemma EmptyIsInv<E(!new)>(o: Order<E>)
    ensures Inv(o, Empty<E>()) && Elements(Empty<E>().buckets) == {}
  {
    EmptyBuckets(NoElements<E>(4));
    assert IsPow2(2) && IsPow2(4);
  }

  lemma ApartDistinct<E(!new)>(o: Order<E>, s: seq<E>)
    requires o.Lawful() && Apart(o, s)
    ensures forall i, j :: 0 <= i < j < |s| ==> s[i] != s[j]
  {
  }

  lemma {:induction false} DistinctCard<E>(s: seq<E>)
    requires forall i, j :: 0 <= i < j < |s| ==> s[i] != s[j]
    ensures |set e | e in s| == |s|
  {
    if s != [] {
      var r, e := s[..|s| - 1], s[|s| - 1];
      DistinctCard(r);
      assert (set x | x in s) == (set x | x in r) + {e} by { assert s == r + [e]; }
      assert e !in r;
    }
  }

  /** `elem_cnt` is the number of elements. */
  lemma CountIsSize<E(!new)>(o: Order<E>, t: Table<E>)
    requires o.Lawful() && Inv(o, t)
    ensures t.cnt == |Elements(t.buckets)|
  {
    FlattenApart(o, t.buckets, 0);
    assert t.buckets[0..] == t.buckets;
    ApartDistinct(o, Flatten(t.buckets));
    DistinctCard(Flatten(t.buckets));
    assert Elements(t.buckets) == set e | e in Flatten(t.buckets);
  }
}
