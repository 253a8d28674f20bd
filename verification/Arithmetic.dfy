/**
 64-bit division built from the 64-by-32-bit `divl` instruction (lib/arithmetic.c).  Machine
 words are integers in range, and wrap-around is written out.
 */
module Arithmetic {

  const B31: int := 0x8000_0000
  const B32: int := 0x1_0000_0000
  const B63: int := 0x8000_0000_0000_0000
  const B64: int := 0x1_0000_0000_0000_0000

  function Pow2(n: nat): (p: nat)
    ensures p > 0
  {
    if n == 0 then 1 else 2 * Pow2(n - 1)
  }

  lemma {:induction false} Pow2Add(m: nat, n: nat)
    ensures Pow2(m + n) == Pow2(m) * Pow2(n)
  {
    if m > 0 {
      Pow2Add(m - 1, n);
      var a, b := Pow2(m - 1), Pow2(n);
      assert m - 1 + n == m + n - 1;
      MulAssoc(2, a, b);
    }
  }

  lemma MulNegate(a: int, b: int)
    ensures (0 - a) * b == 0 - a * b
  {
  }

  lemma MulComm(a: int, b: int)
    ensures a * b == b * a
  {
  }

  lemma MulAdd(a: int, b: int, c: int)
    ensures (a + b) * c == a * c + b * c
  {
  }

  lemma MulCancel(a: int, b: int, c: int)
    requires c > 0
    ensures (a * c <= b * c ==> a <= b) && (a * c < b * c ==> a < b)
  {
    if b < a { MulMono(b + 1, a, c); MulAdd(b, 1, c); }
  }

  lemma MulAssoc(a: int, b: int, c: int)
    ensures a * (b * c) == a * b * c
  {
  }

  lemma Pow2Of31()
    ensures Pow2(31) == 0x8000_0000
  {
    Pow2Add(15, 16);
    assert Pow2(15) == 32768 && Pow2(16) == 65536;
  }

  lemma MulMono(a: int, b: int, c: int)
    ensures a <= b && c >= 0 ==> a * c <= b * c
  {
    if a <= b && c >= 0 { assert (b - a) * c >= 0; }
  }

  // ------------------------------------------------------------ leading zeros

  /** Leading zero bits of a nonzero 32-bit word, counted one at a time. */
  function LeadingZeros(x: nat): (n: nat)
    requires 0 < x < B32
    ensures n < 32 && B31 <= x * Pow2(n) < B32
    decreases B32 - x
  {
    if x >= B31 then 0
    else
      var n := LeadingZeros(2 * x);
      LeadingZerosStep(x, n);
      n + 1
  }

  lemma LeadingZerosStep(x: nat, n: nat)
    requires 0 < x < B31 && n < 32 && B31 <= 2 * x * Pow2(n) < B32
    ensures n + 1 < 32 && x * Pow2(n + 1) == 2 * x * Pow2(n)
  {
    var p := Pow2(n);
    assert Pow2(n + 1) == 2 * p && x * (2 * p) == 2 * x * p;
    MulMono(1, x, 2 * p);
    Pow2Of31();
  }

  /** Shifting out `k` zero bits leaves `k` fewer of them. */
  lemma {:induction false} LeadingZerosShift(x: nat, k: nat)
    requires 0 < x && x * Pow2(k) < B32
    ensures x < B32 && LeadingZeros(x) == k + LeadingZeros(x * Pow2(k))
    decreases k
  {
    if k == 0 {
      assert x * 1 == x;
    } else {
      assert x * Pow2(k) == 2 * x * Pow2(k - 1);
      assert Pow2(k - 1) >= 1;
      assert 2 * x <= 2 * x * Pow2(k - 1);
      LeadingZerosShift(2 * x, k - 1);
    }
  }

  lemma Pow2Values()
    ensures Pow2(2) == 4 && Pow2(4) == 16 && Pow2(8) == 256 && Pow2(16) == 65536
  {
  }

  /** `nlz`: halving the number of bits to look at each time. */
  method Nlz(x0: nat) returns (n: nat)
    requires 0 < x0 < B32
    ensures n == LeadingZeros(x0)
  {
    hide LeadingZeros, Pow2;
    Pow2Values();
    var x := x0;
    n := 0;
    if x <= 0x0000_FFFF {
      LeadingZerosShift(x, 16);
      n, x := n + 16, x * 65536;
    }
    if x <= 0x00FF_FFFF {
      LeadingZerosShift(x, 8);
      n, x := n + 8, x * 256;
    }
    if x <= 0x0FFF_FFFF {
      LeadingZerosShift(x, 4);
      n, x := n + 4, x * 16;
    }
    if x <= 0x3FFF_FFFF {
      LeadingZerosShift(x, 2);
      n, x := n + 2, x * 4;
    }
    if x <= 0x7FFF_FFFF {
      LeadingZerosLast(x);
      n := n + 1;
    } else {
      LeadingZerosNone(x);
    }
  }

  lemma LeadingZerosLast(x: nat)
    requires 0x4000_0000 <= x < B31
    ensures LeadingZeros(x) == 1
  {
  }

  lemma LeadingZerosNone(x: nat)
    requires B31 <= x < B32
    ensures LeadingZeros(x) == 0
  {
  }

  // -------------------------------------------------------------- the divisions

  /** `divl` traps unless the quotient fits 32 bits. */
  predicate DivlFits(n: nat, d: nat) { d > 0 && n / d < B32 }

  /** `divl`. */
  function Divl(n: nat, d: nat): (q: nat)
    requires n < B64 && d < B32 && DivlFits(n, d)
  {
    n / d
  }

  /** What is left to divide after the high word has been divided. */
  function ShortRest(n: nat, d: nat): (m: nat)
    requires n < B64 && 0 < d < B32
    ensures m < B32 * d < B64
  {
    ShortSmall(n / B32 % d, n % B32, d);
    B32 * (n / B32 % d) + n % B32
  }

  /** `udiv64` for divisors of one word. */
  function UdivShort(n: nat, d: nat): (q: int)
    requires n < B64 && 0 < d < B32 && DivlFits(ShortRest(n, d), d)
  {
    Divl(ShortRest(n, d), d) + B32 * (n / B32 / d)
  }

  /** The divisor shifted up until its top bit is set, without its low word. */
  function TopWord(d: nat): (v: nat)
    requires B32 <= d < B64
  {
    d * Pow2(LeadingZeros(d / B32)) % B64 / B32
  }

  /** The estimate `udiv64` makes of the quotient by a divisor of two words. */
  function Estimate(n: nat, d: nat): (q: nat)
    requires n < B64 && B32 <= d < B64 && DivlFits(n / 2, TopWord(d)) && TopWord(d) < B32
  {
    Divl(n / 2, TopWord(d)) / Pow2(31 - LeadingZeros(d / B32))
  }

  /** `udiv64` for divisors of two words, corrected in wrapping 64-bit arithmetic. */
  function UdivLong(n: nat, d: nat): (q: nat)
    requires n < B64 && B32 <= d < B64 && DivlFits(n / 2, TopWord(d)) && TopWord(d) < B32
  {
    if n < d then 0 else Correct(n, d, Estimate(n, d))
  }

  /** The estimate, or one less if the remainder says so; all in 64-bit arithmetic. */
  function Correct(n: nat, d: nat, q: nat): (r: nat) {
    if (n - (q - 1) * d) % B64 < d then (q - 1) % B64 else q
  }

  // ------------------------------------------------------- short divisors

  lemma DivUnique(n: int, d: int, q: int)
    requires d > 0 && q * d <= n < (q + 1) * d
    ensures n / d == q
  {
    var r := n / d;
    assert n == r * d + n % d;
    assert (r + 1) * d == r * d + d;
    MulMono(r + 1, q, d);
    MulMono(q + 1, r, d);
  }

  lemma ShortSmall(r: int, n0: int, d: int)
    requires 0 <= r < d < B32 && 0 <= n0 < B32
    ensures 0 <= B32 * r + n0 < B32 * d < B64
  {
  }

  /** A number below `B32 * d` has a quotient by `d` below `B32`. */
  lemma QuotientFits(m: nat, d: nat)
    requires d > 0 && m < B32 * d
    ensures m / d < B32
  {
    assert m == m / d * d + m % d;
    MulMono(B32, m / d, d);
  }

  /** `divl` does not trap, and the two partial quotients add up. */
  lemma ShortExact(n: nat, d: nat)
    requires n < B64 && 0 < d < B32
    ensures DivlFits(ShortRest(n, d), d) && UdivShort(n, d) == n / d
  {
    QuotientFits(ShortRest(n, d), d);
    ShortSum(n / B32, n % B32, d);
  }

  lemma ShortSum(n1: nat, n0: nat, d: nat)
    requires d > 0
    ensures (B32 * (n1 % d) + n0) / d + B32 * (n1 / d) == (B32 * n1 + n0) / d
  {
    var m, t := B32 * (n1 % d) + n0, B32 * (n1 / d);
    var q := m / d;
    assert m == q * d + m % d;
    assert n1 == n1 / d * d + n1 % d;
    assert t * d == B32 * (n1 / d * d);
    assert (q + t) * d == q * d + t * d && (q + t + 1) * d == q * d + t * d + d;
    DivUnique(B32 * n1 + n0, d, q + t);
  }

  // -------------------------------------------------------- long divisors

  /** What normalising a two-word divisor by `s` bits gives: `p` is 2^s, `r` is 2^(32-s), `v` the top word. */
  ghost predicate Normal(d: nat, p: nat, r: nat, v: nat) {
    && p > 0 && r >= 2 && r % 2 == 0 && p * r == B32 && (r == 2 || r >= 4)
    && B31 <= v < B32 && v * B32 <= d * p < (v + 1) * B32
  }

  lemma Scales(s: nat)
    requires s < 32
    ensures Pow2(s) * Pow2(32 - s) == B32 && Pow2(32 - s) == 2 * Pow2(31 - s)
    ensures Pow2(32 - s) == 2 || Pow2(32 - s) >= 4
  {
    Pow2Add(s, 32 - s);
    Pow2Of31();
    assert Pow2(32) == 2 * Pow2(31);
    if s < 31 { assert Pow2(31 - s) == 2 * Pow2(30 - s); }
  }

  /** The normalised divisor fits 64 bits, and its top word has its top bit set. */
  lemma Normalised(d: nat)
    requires B32 <= d < B64
    ensures var s := LeadingZeros(d / B32); Normal(d, Pow2(s), Pow2(32 - s), TopWord(d))
  {
    hide LeadingZeros, Pow2, Normal;
    var s := LeadingZeros(d / B32);
    Scales(s);
    ShiftNormal(d, Pow2(s), Pow2(32 - s));
  }

  lemma ShiftNormal(d: nat, p: nat, r: nat)
    requires d < B64 && p > 0 && p * r == B32 && r % 2 == 0 && (r == 2 || r >= 4) && B31 <= d / B32 * p < B32
    ensures Normal(d, p, r, d * p % B64 / B32)
  {
    ShiftFits(d, p, r);
    var x := d * p;
    assert x % B64 == x;
  }

  lemma ShiftFits(d: nat, p: nat, r: nat)
    requires d < B64 && p > 0 && p * r == B32 && B31 <= d / B32 * p < B32
    ensures d * p < B64 && B31 <= d * p / B32 < B32
  {
    var d1, d0 := d / B32, d % B32;
    MulMono(r, d1, p);
    MulMono(d1, r - 1, p);
    assert (r - 1) * p == B32 - p;
    MulMono(d0, B32 - 1, p);
    MulMono(0, d0, p);
    ShiftParts(d1 * p, d0 * p, p);
    assert d * p == B32 * (d1 * p) + d0 * p;
  }

  lemma ShiftParts(x: int, y: int, p: int)
    requires B31 <= x <= B32 - p && 0 <= y <= (B32 - 1) * p && p > 0
    ensures 0 <= B32 * x + y < B64 && B31 <= (B32 * x + y) / B32 < B32
  {
  }

  /** The estimate is the quotient by `v * r`, a divisor that is at most `r - 1` too small. */
  lemma EstimateIs(n: nat, d: nat)
    requires n < B64 && B32 <= d < B64
    ensures DivlFits(n / 2, TopWord(d)) && TopWord(d) < B32
    ensures var s := LeadingZeros(d / B32);
            TopWord(d) * Pow2(32 - s) > 0 && Estimate(n, d) == n / (TopWord(d) * Pow2(32 - s))
  {
    hide LeadingZeros, Pow2, TopWord;
    Normalised(d);
    var s := LeadingZeros(d / B32);
    var v := TopWord(d);
    MulMono(B31, v, B32);
    QuotientFits(n / 2, v);
    Scales(s);
    DivDiv(n, 2, v);
    DivDiv(n, 2 * v, Pow2(31 - s));
    assert 2 * v * Pow2(31 - s) == v * (2 * Pow2(31 - s));
    assert v * Pow2(32 - s) > 0 by { MulMono(1, Pow2(32 - s), v); }
  }

  lemma DivDiv(a: nat, b: nat, c: nat)
    requires b > 0 && c > 0
    ensures b * c > 0 && a / b / c == a / (b * c)
  {
    var m := a / b;
    var q := m / c;
    assert a == m * b + a % b && m == q * c + m % c;
    MulMono(1, c, b);
    DivDivBounds(a, b, c, m, q);
    DivUnique(a, b * c, q);
  }

  lemma DivDivBounds(a: nat, b: nat, c: nat, m: nat, q: nat)
    requires m * b <= a < m * b + b && q * c <= m < q * c + c
    ensures q * (b * c) <= a < (q + 1) * (b * c)
  {
    MulMono(q * c, m, b);
    MulMono(m + 1, q * c + c, b);
    assert q * c * b == q * (b * c);
    assert (q * c + c) * b == (q + 1) * (b * c);
    assert (m + 1) * b == m * b + b;
  }

  /** The smaller divisor is close enough that the quotient is at most one too large. */
  lemma NearQuotient(n: nat, d: nat, p: nat, r: nat, v: nat)
    requires n < B64 && Normal(d, p, r, v) && d > 0
    ensures v * r > 0 && n / d <= n / (v * r) <= n / d + 1
  {
    hide Normal, Close;
    var e := NearDivisor(d, p, r, v);
    NearEnough(n, d, p, r, v, e);
    CloseQuotients(n, d, e);
  }

  /** Dividing by `e` instead of `d` gains less than one. */
  ghost predicate Close(n: nat, d: nat, e: nat) {
    0 < e <= d && Times(Quotient(n, d) + 1, d - e) <= e
  }

  ghost function Quotient(n: nat, d: nat): nat
    requires d > 0
  {
    n / d
  }

  ghost function Times(a: int, b: int): int { a * b }

  lemma NearEnough(n: nat, d: nat, p: nat, r: nat, v: nat, e: nat)
    requires n < B64 && Normal(d, p, r, v) && d > 0 && e == Times(v, r) && 0 < e <= d <= e + r - 1
    ensures Close(n, d, e)
  {
    hide Normal, Times, Quotient;
    SmallQuotient(n, d, p, r, v);
    SmallError(d, p, r, v);
    ErrorProduct(Quotient(n, d), d - e, d, p, r, v);
  }

  lemma ErrorProduct(q: nat, e: nat, d: nat, p: nat, r: nat, v: nat)
    requires q + 1 <= 2 * p && e <= r - 1 && Normal(d, p, r, v)
    ensures Times(q + 1, e) <= 2 * B32 - 2 * p
  {
    MulMono(q + 1, 2 * p, e);
    MulMono(e, r - 1, 2 * p);
    assert 2 * p * (r - 1) == 2 * (p * r) - 2 * p;
  }

  lemma CloseQuotients(n: nat, d: nat, e: nat)
    requires Close(n, d, e)
    ensures n / d <= n / e <= n / d + 1
  {
    var q := n / d;
    assert n == q * d + n % d;
    assert (q + 1) * (d - e) == q * d + d - (q + 1) * e;
    assert (q + 2) * e == (q + 1) * e + e;
    DivBound(n, e, q + 2);
    MulMono(e, d, q);
    DivAtLeast(n, e, q);
  }

  lemma NearDivisor(d: nat, p: nat, r: nat, v: nat) returns (e: nat)
    requires Normal(d, p, r, v)
    ensures e == v * r && 0 < e <= d <= e + r - 1
  {
    hide Normal;
    e := v * r;
    Scaled(d, p, r, v, e);
    MulCancel(e, d, p);
    MulCancel(d, e + r, p);
    MulMono(1, v, r);
  }

  lemma Scaled(d: nat, p: nat, r: nat, v: nat, e: nat)
    requires Normal(d, p, r, v) && e == v * r
    ensures e * p <= d * p < (e + r) * p && p > 0 && r >= 2 && v >= 1
  {
    MulAssoc(v, r, p);
    MulComm(r, p);
    MulAdd(e, r, p);
    MulAdd(v, 1, B32);
  }

  lemma SmallQuotient(n: nat, d: nat, p: nat, r: nat, v: nat)
    requires n < B64 && Normal(d, p, r, v) && d > 0
    ensures Quotient(n, d) + 1 <= 2 * p
  {
    var q := n / d;
    assert n == q * d + n % d;
    MulMono(B31, v, B32);
    assert B63 <= d * p;
    MulMono(q * d, B64 - 1, p);
    assert q * d * p == q * (d * p);
    MulMono(B63, d * p, q);
    assert (B64 - 1) * p == B64 * p - p;
    assert B63 * q < B63 * (2 * p);
    MulMono(2 * p, q, B63);
  }

  lemma SmallError(d: nat, p: nat, r: nat, v: nat)
    requires Normal(d, p, r, v)
    ensures 2 * B32 - 2 * p <= Times(v, r)
  {
    MulMono(B31, v, r);
    if r == 2 { assert p == B31; } else { MulMono(4, r, B31); }
  }

  lemma DivBound(n: nat, e: nat, k: nat)
    requires e > 0 && n < k * e
    ensures n / e < k
  {
    assert n == n / e * e + n % e;
    MulMono(k, n / e, e);
  }

  lemma DivAtLeast(n: nat, e: nat, k: nat)
    requires e > 0 && k * e <= n
    ensures k <= n / e
  {
    assert n == n / e * e + n % e;
    assert (n / e + 1) * e == n / e * e + e;
    MulMono(n / e + 1, k, e);
  }

  /** `divl` does not trap, and the correction makes the estimate exact. */
  lemma LongExact(n: nat, d: nat)
    requires n < B64 && B32 <= d < B64
    ensures DivlFits(n / 2, TopWord(d)) && TopWord(d) < B32 && UdivLong(n, d) == n / d
  {
    hide LeadingZeros, Pow2, TopWord, Estimate, Normal, DivlFits, Correct;
    EstimateNear(n, d);
    if n < d { NoQuotient(n, d); } else { Corrected(n, d, Estimate(n, d)); }
  }

  lemma NoQuotient(n: nat, d: nat)
    requires n < d
    ensures n / d == 0
  {
    DivBound(n, d, 1);
  }

  /** The estimate is at most one too large. */
  lemma EstimateNear(n: nat, d: nat)
    requires n < B64 && B32 <= d < B64
    ensures DivlFits(n / 2, TopWord(d)) && TopWord(d) < B32 && n / d <= Estimate(n, d) <= n / d + 1
  {
    hide LeadingZeros, Pow2, TopWord, Estimate, Normal, DivlFits;
    EstimateIs(n, d);
    Normalised(d);
    var s := LeadingZeros(d / B32);
    NearQuotient(n, d, Pow2(s), Pow2(32 - s), TopWord(d));
  }

  lemma Corrected(n: nat, d: nat, q: nat)
    requires d <= n < B64 && 0 < d && n / d <= q <= n / d + 1
    ensures Correct(n, d, q) == n / d
  {
    var t := n / d;
    DivAtLeast(n, d, 1);
    assert n == t * d + n % d;
    assert (t - 1) * d == t * d - d;
    MulMono(0, t - 1, d);
    MulMono(1, d, t);
    assert q == t ==> (n - (q - 1) * d) == n % d + d;
    assert q == t + 1 ==> (n - (q - 1) * d) == n % d;
  }

  // -------------------------------------------------------------- the routines

  /** `udiv64`, for a nonzero divisor; division by zero traps. */
  function Udiv64(n: nat, d: nat): (q: int)
    requires n < B64 && 0 < d < B64
  {
    if d < B32 then
      ShortExact(n, d);
      UdivShort(n, d)
    else
      LongExact(n, d);
      UdivLong(n, d)
  }

  /** `udiv64` is exact for all operands, and `divl` never traps. */
  lemma UdivExact(n: nat, d: nat)
    requires n < B64 && 0 < d < B64
    ensures Udiv64(n, d) == n / d
  {
    if d < B32 { ShortExact(n, d); } else { LongExact(n, d); }
  }

  /** `umod64`: the result is cut to 32 bits. */
  function Umod64(n: nat, d: nat): (r: int)
    requires n < B64 && 0 < d < B64
  {
    (n - d * Udiv64(n, d)) % B64 % B32
  }

  /** `umod64` is exact if and only if the remainder fits its return type. */
  lemma UmodExactIff(n: nat, d: nat)
    requires n < B64 && 0 < d < B64
    ensures Umod64(n, d) == n % d <==> n % d < B32
  {
    hide Udiv64;
    UdivExact(n, d);
    var r := n % d;
    assert n - d * (n / d) == r;
  }

  /** A word read as a signed number. */
  function Signed(x: int, half: int): (r: int)
    requires half > 0
    ensures -half <= r < half
  {
    (x + half) % (2 * half) - half
  }

  function Abs(x: int): nat { if x < 0 then -x else x }

  /** Division truncating toward zero, as section 6.5.5 of ISO C99 defines it. */
  function TruncDiv(n: int, d: int): (q: int)
    requires d != 0
  {
    if (n < 0) == (d < 0) then Abs(n) / Abs(d) else -(Abs(n) / Abs(d))
  }

  /** `sdiv64`, with conversions and negation wrapping. */
  function Sdiv64(n: int, d: int): (q: int)
    requires -B63 <= n < B63 && -B63 <= d < B63 && d != 0
  {
    var q := Signed(Udiv64(Abs(n), Abs(d)), B63);
    if (n < 0) == (d < 0) then q else Signed(-q, B63)
  }

  /** `sdiv64` truncates toward zero, except where the quotient does not fit. */
  lemma SdivExactIff(n: int, d: int)
    requires -B63 <= n < B63 && -B63 <= d < B63 && d != 0
    ensures Sdiv64(n, d) == TruncDiv(n, d) <==> !(n == -B63 && d == -1)
  {
    hide Udiv64, Signed;
    UdivExact(Abs(n), Abs(d));
    QuotientSize(Abs(n), Abs(d));
    SignedWraps(Abs(n) / Abs(d));
  }

  lemma SignedWraps(q: int)
    requires 0 <= q <= B63
    ensures Signed(q, B63) == (if q < B63 then q else -B63) && Signed(-q, B63) == -q && Signed(B63, B63) == -B63
  {
  }

  /** A quotient is as large as the dividend only for divisor one, or zero. */
  lemma QuotientSize(a: nat, b: nat)
    requires b > 0
    ensures 0 <= a / b <= a && (b == 1 ==> a / b == a) && (b > 1 && a > 0 ==> a / b < a)
  {
    var q := a / b;
    assert a == q * b + a % b;
    MulMono(1, b, q);
    MulMono(2, b, q);
  }

  /** `smod64`: the result is cut to 32 bits. */
  function Smod64(n: int, d: int): (r: int)
    requires -B63 <= n < B63 && -B63 <= d < B63 && d != 0
  {
    Signed(Signed(n - d * Sdiv64(n, d), B63), B31)
  }

  /** The remainder that belongs to truncating division. */
  function TruncMod(n: int, d: int): (r: int)
    requires d != 0
  {
    n - d * TruncDiv(n, d)
  }

  /** `smod64` is exact if and only if the remainder fits its return type. */
  lemma SmodExactIff(n: int, d: int)
    requires -B63 <= n < B63 && -B63 <= d < B63 && d != 0
    ensures Smod64(n, d) == TruncMod(n, d) <==> -B31 <= TruncMod(n, d) < B31
  {
    hide Sdiv64, TruncDiv, TruncMod;
    SdivExactIff(n, d);
    TruncModSmall(n, d);
    if n == -B63 && d == -1 {
      Overflow();
    } else {
      assert Signed(TruncMod(n, d), B63) == TruncMod(n, d);
      SameRemainder(n, d);
    }
  }

  lemma SameRemainder(n: int, d: int)
    requires -B63 <= n < B63 && -B63 <= d < B63 && d != 0 && Sdiv64(n, d) == TruncDiv(n, d)
    ensures n - d * Sdiv64(n, d) == TruncMod(n, d)
  {
  }

  /** The one quotient that does not fit leaves the right remainder all the same. */
  lemma Overflow()
    ensures Sdiv64(-B63, -1) == -B63 && Smod64(-B63, -1) == 0 && TruncMod(-B63, -1) == 0
  {
    hide Udiv64, Signed;
    UdivExact(B63, 1);
    QuotientSize(B63, 1);
    SignedWraps(B63);
    SignedZero();
  }

  /** Remainders that do not fit 32 bits: 2^32 modulo 2^32 + 1 comes out as 0, and 2^31 modulo 2^31 + 1 as -2^31. */
  lemma RemaindersCut()
    ensures B32 % (B32 + 1) == B32 && Umod64(B32, B32 + 1) == 0
    ensures TruncMod(B31, B31 + 1) == B31 && Smod64(B31, B31 + 1) == -B31
  {
    hide Udiv64;
    UdivExact(B32, B32 + 1);
    UdivExact(B31, B31 + 1);
  }

  lemma SignedZero()
    ensures Signed(-B64, B63) == 0 && Signed(0, B31) == 0
  {
  }

  lemma TruncModSmall(n: int, d: int)
    requires -B63 <= n < B63 && -B63 <= d < B63 && d != 0
    ensures -B63 < TruncMod(n, d) < B63
  {
    var a, b := Abs(n), Abs(d);
    var q: int := a / b;
    assert a == b * q + a % b;
    assert d * TruncDiv(n, d) == (if n < 0 then -(b * q) else b * q);
  }
}
