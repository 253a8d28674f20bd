/** The loops and updates of lib/kernel/hash.c on mutable state, proved against module Hash; and its iterator. */
module HashTable {
  import opened Base
  import opened Hash

  lemma {:induction false} FlattenLast<E>(bs: seq<seq<E>>, i: nat)
    requires i < |bs|
    ensures Flatten(bs[..i + 1]) == Flatten(bs[..i]) + bs[i]
  {
    if i == 0 {
      assert bs[..1] == [bs[0]] && bs[..0] == [];
    } else {
      FlattenLast(bs[1..], i - 1);
      assert bs[..i + 1][1..] == bs[1..][..i] && bs[..i][1..] == bs[1..][..i - 1];
    }
  }

  lemma {:induction false} FlattenSplit<E>(bs: seq<seq<E>>, i: nat)
    requires i <= |bs|
    ensures Flatten(bs) == Flatten(bs[..i]) + Flatten(bs[i..])
  {
    if i == 0 {
      assert bs[..0] == [] && bs[0..] == bs;
    } else {
      FlattenSplit(bs[1..], i - 1);
      assert bs[..i][1..] == bs[1..][..i - 1] && bs[i..] == bs[1..][i - 1..];
    }
  }

  class Chained<E(!new)> {
    const o: Order<E>
    var buckets: seq<seq<E>>
    var elemCnt: nat

    ghost function Now(): Table<E>
      reads this
    {
      Table(buckets, elemCnt)
    }

    /** `hash_init`. */
    constructor (o: Order<E>)
      ensures this.o == o && Now() == Empty()
    {
      this.o := o;
      buckets, elemCnt := NoElements(4), 0;
    }

    /** `find_elem`. */
    method FindElem(b: seq<E>, e: E) returns (r: Option<nat>)
      ensures r == FindIn(o, b, e, 0)
    {
      var i := 0;
      while i < |b|
        invariant i <= |b| && FindIn(o, b, e, 0) == FindIn(o, b, e, i)
      {
        if !o.less(b[i], e) && !o.less(e, b[i]) { return Some(i); }
        i := i + 1;
      }
      return None;
    }

    /** `hash_find`. */
    method HashFind(e: E) returns (r: Option<E>)
      requires IsPow2(|buckets|)
      ensures |buckets| > 0 && r == Find(o, Now(), e)
    {
      BucketInRange(o, e, |buckets|);
      var i := BucketOf(o, e, |buckets|);
      var j := FindElem(buckets[i], e);
      r := if j.Some? then Some(buckets[i][j.value]) else None;
    }

    /** The inner loop of `rehash`: moves the elements of one bucket. */
    method MoveBucket(moved0: seq<seq<E>>, b: seq<E>, ghost done: seq<E>) returns (moved: seq<seq<E>>)
      requires IsPow2(|moved0|) && moved0 == Distribute(o, done, |moved0|)
      ensures moved == Distribute(o, done + b, |moved0|)
    {
      hide IsPow2;
      moved := moved0;
      assert done + b[..0] == done;
      for j := 0 to |b|
        invariant |moved| == |moved0| && moved == Distribute(o, done + b[..j], |moved0|)
      {
        ghost var s := done + b[..j + 1];
        assert s[..|s| - 1] == done + b[..j] && s[|s| - 1] == b[j];
        BucketInRange(o, b[j], |moved0|);
        var k := BucketOf(o, b[j], |moved0|);
        moved := moved[k := [b[j]] + moved[k]];
      }
      assert b[..|b|] == b;
    }

    /** `rehash`. */
    method DoRehash(ok: bool)
      modifies this`buckets
      ensures Now() == Rehash(o, old(Now()), ok)
    {
      hide IsPow2;
      var newCnt := BestCount(elemCnt);
      if newCnt == |buckets| || !ok { return; }
      var moved: seq<seq<E>> := NoElements(newCnt);
      ghost var bs := buckets;
      for i := 0 to |buckets|
        invariant buckets == bs && |moved| == newCnt && moved == Distribute(o, Flatten(bs[..i]), newCnt)
      {
        moved := MoveBucket(moved, buckets[i], Flatten(bs[..i]));
        FlattenLast(bs, i);
      }
      assert bs[..|bs|] == bs;
      buckets := moved;
    }

    /** `insert_elem`. */
    method InsertElem(e: E)
      requires IsPow2(|buckets|)
      modifies this
      ensures Now() == Table(Push(o, old(buckets), e), old(elemCnt) + 1)
    {
      BucketInRange(o, e, |buckets|);
      var i := BucketOf(o, e, |buckets|);
      elemCnt := elemCnt + 1;
      buckets := buckets[i := [e] + buckets[i]];
    }

    /** Finds and removes the element equal to `e`. */
    method RemoveEqual(e: E) returns (found: Option<E>)
      requires o.Lawful() && Inv(o, Now())
      modifies this
      ensures |old(buckets)| > 0 && found == Find(o, old(Now()), e) && Now() == Removed(o, old(Now()), e)
    {
      BucketInRange(o, e, |buckets|);
      var i := BucketOf(o, e, |buckets|);
      var j := FindElem(buckets[i], e);
      if j.None? { return None; }
      found := Some(buckets[i][j.value]);
      RemoveKeeps(o, buckets, i, j.value);
      elemCnt := elemCnt - 1;
      buckets := buckets[i := Without(buckets[i], j.value)];
    }

    /** `hash_insert`. */
    method HashInsert(e: E, ok: bool) returns (found: Option<E>)
      requires o.Lawful() && Inv(o, Now())
      modifies this
      ensures |old(buckets)| > 0 && (Now(), found) == Insert(o, old(Now()), e, ok) && Inv(o, Now())
    {
      StepRefines(o, Now(), DoInsert(e), ok);
      found := HashFind(e);
      if found.None? { InsertElem(e); }
      DoRehash(ok);
    }

    /** `hash_replace`. */
    method HashReplace(e: E, ok: bool) returns (found: Option<E>)
      requires o.Lawful() && Inv(o, Now())
      modifies this
      ensures |old(buckets)| > 0 && (Now(), found) == Replace(o, old(Now()), e, ok) && Inv(o, Now())
    {
      StepRefines(o, Now(), DoReplace(e), ok);
      found := RemoveEqual(e);
      RemovedRefines(o, old(Now()), e);
      InsertElem(e);
      DoRehash(ok);
    }

    /** `hash_delete`. */
    method HashDelete(e: E, ok: bool) returns (found: Option<E>)
      requires o.Lawful() && Inv(o, Now())
      modifies this
      ensures |old(buckets)| > 0 && (Now(), found) == Delete(o, old(Now()), e, ok) && Inv(o, Now())
    {
      StepRefines(o, Now(), DoDelete(e), ok);
      found := RemoveEqual(e);
      if found.Some? { DoRehash(ok); }
    }

    // ------------------------------------------------------------------ iteration

    /** How many elements come before the iterator's place. */
    ghost function Passed(bucket: nat, elem: int): int
      requires bucket < |buckets|
      reads this
    {
      |Flatten(buckets[..bucket])| + elem
    }

    /**
     `hash_next`, from place `elem` of `bucket` (-1 is the list head, where `hash_first` starts): the next element
     in the order of the buckets, or nothing after the last.
     */
    method HashNext(bucket0: nat, elem0: int) returns (bucket: nat, elem: int, r: Option<E>)
      requires bucket0 < |buckets| && -1 <= elem0 < |buckets[bucket0]|
      ensures var n := Passed(bucket0, elem0) + 1;
              if n < |Flatten(buckets)| then
                && bucket < |buckets| && 0 <= elem < |buckets[bucket]| && Passed(bucket, elem) == n
                && r == Some(buckets[bucket][elem]) && buckets[bucket][elem] == Flatten(buckets)[n]
              else r == None
    {
      bucket, elem := bucket0, elem0 + 1;
      while elem == |buckets[bucket]|
        invariant bucket < |buckets| && 0 <= elem <= |buckets[bucket]|
        invariant Passed(bucket, elem) == Passed(bucket0, elem0) + 1
        decreases |buckets| - bucket
      {
        FlattenLast(buckets, bucket);
        bucket := bucket + 1;
        if bucket == |buckets| {
          assert buckets[..bucket] == buckets;
          return bucket, 0, None;
        }
        elem := 0;
      }
      r := Some(buckets[bucket][elem]);
      AtPlace(buckets, bucket, elem);
    }

    /** The iteration idiom: each element is visited once, in the order of the buckets. */
    method VisitAll() returns (visited: seq<E>)
      requires |buckets| > 0
      ensures visited == Flatten(buckets)
    {
      visited := [];
      ghost var all := Flatten(buckets);
      var bucket: nat, elem: int := 0, -1;
      assert buckets[..0] == [];
      var r: Option<E>;
      bucket, elem, r := HashNext(bucket, elem);
      while r.Some?
        invariant |visited| <= |all| && visited == all[..|visited|]
        invariant if r.Some? then
                    |visited| < |all| && bucket < |buckets| && 0 <= elem < |buckets[bucket]|
                    && Passed(bucket, elem) == |visited| && r.value == all[|visited|]
                  else |visited| == |all|
        decreases |all| - |visited|, if r.Some? then 1 else 0
      {
        visited := visited + [r.value];
        bucket, elem, r := HashNext(bucket, elem);
      }
    }
  }

  lemma AtPlace<E>(bs: seq<seq<E>>, bucket: nat, elem: nat)
    requires bucket < |bs| && elem < |bs[bucket]|
    ensures var n := |Flatten(bs[..bucket])| + elem; n < |Flatten(bs)| && Flatten(bs)[n] == bs[bucket][elem]
  {
    FlattenSplit(bs, bucket);
    assert bs[bucket..][0] == bs[bucket];
  }
}
