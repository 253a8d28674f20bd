/** Bitmaps (lib/kernel/bitmap.c): an array of 32-bit words that stands for a sequence of bits. */
module Bits {
  import opened Base

  const ELEM_BITS: nat := 32

  // ------------------------------------------------- the sequence it stands for

  /** `cnt` bits from `start` on are all `v`. */
  predicate AllAre(b: seq<bool>, start: nat, cnt: nat, v: bool) {
    start + cnt <= |b| && forall i :: start <= i < start + cnt ==> b[i] == v
  }

  function SetRange(b: seq<bool>, start: nat, cnt: nat, v: bool): (r: seq<bool>)
    ensures |r| == |b| && forall i :: 0 <= i < |b| ==> r[i] == if start <= i < start + cnt then v else b[i]
  {
    seq(|b|, i requires 0 <= i < |b| => if start <= i < start + cnt then v else b[i])
  }

  /** The first position from `i` on where `cnt` bits in a row are `v`. */
  function Scan(b: seq<bool>, i: nat, cnt: nat, v: bool): (r: Option<nat>)
    ensures r.Some? ==> i <= r.value && AllAre(b, r.value, cnt, v)
    ensures forall j :: i <= j && (r.Some? ==> j < r.value) ==> !AllAre(b, j, cnt, v)
    decreases |b| - i
  {
    if i + cnt > |b| then None
    else if AllAre(b, i, cnt, v) then Some(i)
    else if i == |b| then None
    else Scan(b, i + 1, cnt, v)
  }

  // ---------------------------------------------------------------------- words

  /** A shift count below 16 as a machine word. */
  function LowShift(n: nat): (k: bv32)
    requires n < 16
    ensures k < 16
  {
    [0, 1, 2, 3, 4, 5, 6, 7, 8, 9, 10, 11, 12, 13, 14, 15][n]
  }

  /** A shift count as a machine word. */
  function Shift(n: nat): (k: bv32)
    requires n < ELEM_BITS
    ensures k < 32
  {
    if n < 16 then LowShift(n) else 16 + LowShift(n - 16)
  }

  lemma ShiftInjective(i: nat, j: nat)
    requires i < ELEM_BITS && j < ELEM_BITS
    ensures Shift(i) == Shift(j) <==> i == j
  {
  }

  // Word operations, by mask.

  function And(w: bv32, m: bv32): bv32 { w & m }

  predicate Hit(w: bv32, m: bv32) { And(w, m) != 0 }

  function Or(w: bv32, m: bv32): bv32 { w | m }

  function AndNot(w: bv32, m: bv32): bv32 { w & !m }

  predicate NonZero(m: bv32) { m != 0 }

  predicate Apart(a: bv32, b: bv32) { a & b == 0 }

  function Mask(k: bv32): bv32 requires k < 32 { 1 << k }

  lemma MaskNonzero(k: bv32)
    requires k < 32
    ensures NonZero(Mask(k))
  {
  }

  lemma MasksApart(k: bv32, l: bv32)
    requires k < 32 && l < 32 && k != l
    ensures Apart(Mask(k), Mask(l))
  {
  }

  lemma OrSame(w: bv32, a: bv32)
    requires NonZero(a)
    ensures Hit(Or(w, a), a)
  {
  }

  lemma AndNotSame(w: bv32, a: bv32)
    ensures !Hit(AndNot(w, a), a)
  {
  }

  lemma OrApart(w: bv32, a: bv32, b: bv32)
    requires Apart(a, b)
    ensures And(Or(w, a), b) == And(w, b)
  {
  }

  lemma AndNotApart(w: bv32, a: bv32, b: bv32)
    requires Apart(a, b)
    ensures And(AndNot(w, a), b) == And(w, b)
  {
  }

  // Word operations, by bit number.

  /** `bit_mask`. */
  function BitMask(i: nat): bv32 { Mask(Shift(i % ELEM_BITS)) }

  lemma BitMasks(i: nat, j: nat)
    ensures NonZero(BitMask(i))
    ensures if i % ELEM_BITS == j % ELEM_BITS then BitMask(i) == BitMask(j) else Apart(BitMask(i), BitMask(j))
  {
    hide Shift, Mask, NonZero, Apart;
    ShiftInjective(i % ELEM_BITS, j % ELEM_BITS);
    MaskNonzero(Shift(i % ELEM_BITS));
    if i % ELEM_BITS != j % ELEM_BITS {
      MasksApart(Shift(i % ELEM_BITS), Shift(j % ELEM_BITS));
    }
  }

  predicate TestBit(w: bv32, i: nat) { Hit(w, BitMask(i)) }

  function SetBit(w: bv32, i: nat): bv32 { Or(w, BitMask(i)) }

  function ClearBit(w: bv32, i: nat): bv32 { AndNot(w, BitMask(i)) }

  /** Setting and clearing one bit of a word changes that bit only. */
  lemma WordOps(w: bv32, i: nat, j: nat)
    ensures TestBit(SetBit(w, i), j) == (i % ELEM_BITS == j % ELEM_BITS || TestBit(w, j))
    ensures TestBit(ClearBit(w, i), j) == (i % ELEM_BITS != j % ELEM_BITS && TestBit(w, j))
  {
    hide And, Or, AndNot, NonZero, Apart, BitMask;
    BitMasks(i, j);
    if i % ELEM_BITS == j % ELEM_BITS {
      OrSame(w, BitMask(i));
      AndNotSame(w, BitMask(i));
    } else {
      OrApart(w, BitMask(i), BitMask(j));
      AndNotApart(w, BitMask(i), BitMask(j));
    }
  }

  class Bitmap {
    const bitCnt: nat
    const bits: array<bv32>

    ghost predicate Valid()
      reads this
    {
      bits.Length == (bitCnt + ELEM_BITS - 1) / ELEM_BITS
    }

    /** The bits the words stand for. */
    ghost function Value(): (b: seq<bool>)
      requires Valid()
      reads this, bits
      ensures |b| == bitCnt
    {
      seq(bitCnt, i requires 0 <= i < bitCnt reads this, bits requires Valid() => TestBit(bits[i / ELEM_BITS], i))
    }

    constructor (n: nat)
      ensures Valid() && fresh(bits) && bitCnt == n && Value() == seq(n, _ => false)
    {
      bitCnt := n;
      bits := new bv32[(n + ELEM_BITS - 1) / ELEM_BITS](_ => 0);
    }

    /** `bitmap_test`. */
    method Test(i: nat) returns (v: bool)
      requires Valid() && i < bitCnt
      ensures v == Value()[i]
    {
      hide TestBit;
      v := TestBit(bits[i / ELEM_BITS], i);
    }

    /** `bitmap_mark`. */
    method Mark(i: nat)
      requires Valid() && i < bitCnt
      modifies bits
      ensures Valid() && Value() == old(Value())[i := true]
    {
      hide TestBit, SetBit, ClearBit;
      var w := bits[i / ELEM_BITS];
      bits[i / ELEM_BITS] := SetBit(w, i);
      forall j | 0 <= j < bitCnt ensures Value()[j] == old(Value())[i := true][j] {
        WordOps(w, i, j);
      }
    }

    /** `bitmap_reset`. */
    method Reset(i: nat)
      requires Valid() && i < bitCnt
      modifies bits
      ensures Valid() && Value() == old(Value())[i := false]
    {
      hide TestBit, SetBit, ClearBit;
      var w := bits[i / ELEM_BITS];
      bits[i / ELEM_BITS] := ClearBit(w, i);
      forall j | 0 <= j < bitCnt ensures Value()[j] == old(Value())[i := false][j] {
        WordOps(w, i, j);
      }
    }

    /** `bitmap_set`. */
    method Set(i: nat, v: bool)
      requires Valid() && i < bitCnt
      modifies bits
      ensures Valid() && Value() == old(Value())[i := v]
    {
      if v { Mark(i); } else { Reset(i); }
    }

    /** `bitmap_set_multiple`. */
    method SetMultiple(start: nat, cnt: nat, v: bool)
      requires Valid() && start + cnt <= bitCnt
      modifies bits
      ensures Valid() && Value() == SetRange(old(Value()), start, cnt, v)
    {
      hide TestBit;
      ghost var was := Value();
      for i := 0 to cnt
        invariant Value() == SetRange(was, start, i, v)
      {
        Set(start + i, v);
      }
    }

    /** `bitmap_contains`: whether any of the bits is `v`. */
    method Contains(start: nat, cnt: nat, v: bool) returns (r: bool)
      requires Valid() && start + cnt <= bitCnt
      ensures r == !AllAre(Value(), start, cnt, !v)
    {
      hide TestBit;
      for i := 0 to cnt
        invariant AllAre(Value(), start, i, !v)
      {
        var b := Test(start + i);
        if b == v { return true; }
      }
      return false;
    }

    /** `bitmap_scan`. */
    method ScanBits(start: nat, cnt: nat, v: bool) returns (r: Option<nat>)
      requires Valid() && start <= bitCnt
      ensures r == Scan(Value(), start, cnt, v)
    {
      hide TestBit;
      if cnt <= bitCnt {
        var last := bitCnt - cnt;
        var i := start;
        while i <= last
          invariant start <= i && (i <= last || i == last + 1 || i == start)
          invariant Scan(Value(), start, cnt, v) == Scan(Value(), i, cnt, v)
          decreases last - i
        {
          var other := Contains(i, cnt, !v);
          if !other { return Some(i); }
          i := i + 1;
        }
      }
      return None;
    }

    /** `bitmap_scan_and_flip`. */
    method ScanAndFlip(start: nat, cnt: nat, v: bool) returns (r: Option<nat>)
      requires Valid() && start <= bitCnt
      modifies bits
      ensures Valid() && r == Scan(old(Value()), start, cnt, v)
      ensures Value() == if r.Some? then SetRange(old(Value()), r.value, cnt, !v) else old(Value())
    {
      r := ScanBits(start, cnt, v);
      if r.Some? {
        SetMultiple(r.value, cnt, !v);
      }
    }
  }
}
