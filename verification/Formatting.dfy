/** What the output of `format_integer` says and what `atoi` reads, in every base. */
module Formatting {
  import opened Base
  import opened Printf

  const BASE_O: IntegerBase := IntegerBase(8, "01234567", None, 3)
  const BASE_LOWER_X: IntegerBase := IntegerBase(16, "0123456789abcdef", Some('x'), 4)
  const BASE_UPPER_X: IntegerBase := IntegerBase(16, "0123456789ABCDEF", Some('X'), 4)

  /** The digits are told apart, and from commas; the first is zero. */
  predicate ToldApart(digits: string, base: nat)
    requires 0 < base <= |digits|
  {
    && digits[0] == '0' && (forall i :: 0 <= i < base ==> digits[i] != ',')
    && forall i, j :: 0 <= i < j < base ==> digits[i] != digits[j]
  }

  predicate Legible(b: IntegerBase) { BaseOk(b) && b.group >= 2 && ToldApart(b.digits, b.base) }

  lemma HexDigit(i: nat)
    requires i < 16
    ensures var lower, upper := BASE_LOWER_X.digits[i] as int, BASE_UPPER_X.digits[i] as int;
            lower == (if i < 10 then 48 + i else 87 + i) && upper == (if i < 10 then 48 + i else 55 + i)
  {
  }

  lemma OctalDigit(i: nat)
    requires i < 8
    ensures BASE_O.digits[i] as int == 48 + i
  {
  }

  /** So it is in the bases of the table. */
  lemma TableLegible()
    ensures Legible(BASE_D) && Legible(BASE_O) && Legible(BASE_LOWER_X) && Legible(BASE_UPPER_X)
  {
    forall i: nat | i < 10 ensures BASE_D.digits[i] as int == 48 + i { DigitChar(i); }
    forall i: nat | i < 8 ensures BASE_O.digits[i] as int == 48 + i { OctalDigit(i); }
    forall i: nat | i < 16
      ensures BASE_LOWER_X.digits[i] as int == (if i < 10 then 48 + i else 87 + i)
      ensures BASE_UPPER_X.digits[i] as int == (if i < 10 then 48 + i else 55 + i)
    {
      HexDigit(i);
    }
    Told(BASE_D.digits, 10);
    Told(BASE_O.digits, 8);
    Told(BASE_LOWER_X.digits, 16);
    Told(BASE_UPPER_X.digits, 16);
  }

  lemma Told(digits: string, base: nat)
    requires 0 < base <= |digits| && digits[0] as int == 48
    requires forall i, j :: 0 <= i < j < base ==> 48 <= digits[i] as int < digits[j] as int
    ensures ToldApart(digits, base)
  {
    forall i | 0 <= i < base ensures digits[i] != ',' {
      if i > 0 { assert digits[0] as int < digits[i] as int; }
    }
  }

  // ------------------------------------------------------------------ reading

  /** What a digit stands for. */
  ghost function Place(b: IntegerBase, c: char): nat
    requires BaseOk(b)
  {
    if i :| 0 <= i < b.base && b.digits[i] == c then i else 0
  }

  /** What digits stand for, most significant first and whatever the commas. */
  ghost function ValueOf(s: string, b: IntegerBase): nat
    requires BaseOk(b)
  {
    if s == "" then 0
    else if s[|s| - 1] == ',' then ValueOf(s[..|s| - 1], b)
    else ValueOf(s[..|s| - 1], b) * b.base + Place(b, s[|s| - 1])
  }

  lemma ValuePush(s: string, c: char, b: IntegerBase)
    requires BaseOk(b)
    ensures ValueOf(s + [c], b) == if c == ',' then ValueOf(s, b) else ValueOf(s, b) * b.base + Place(b, c)
  {
    assert (s + [c])[..|s + [c]| - 1] == s;
  }

  lemma PlaceOf(b: IntegerBase, i: nat)
    requires Legible(b) && i < b.base
    ensures Place(b, b.digits[i]) == i && b.digits[i] != ','
  {
  }

  lemma {:induction false} ValueZeros(n: nat, s: string, b: IntegerBase)
    requires Legible(b)
    ensures ValueOf(Dup('0', n) + s, b) == ValueOf(s, b)
    decreases |s|, n
  {
    var z := Dup('0', n);
    if s != "" {
      var t := s[..|s| - 1];
      assert z + s == (z + t) + [s[|s| - 1]];
      ValueZeros(n, t, b);
      ValuePush(z + t, s[|s| - 1], b);
    } else if n > 0 {
      assert z + s == Dup('0', n - 1) + "" + [b.digits[0]];
      ValueZeros(n - 1, "", b);
      PlaceOf(b, 0);
      ValuePush(Dup('0', n - 1) + "", b.digits[0], b);
    } else {
      assert z + s == "";
    }
  }

  lemma ValueStep(rest: string, v: nat, b: IntegerBase, comma: bool)
    requires Legible(b) && ValueOf(rest, b) == v / b.base
    ensures var s := rest + [b.digits[v % b.base]]; ValueOf(if comma then s + [','] else s, b) == v
  {
    hide Place, ToldApart, ValueOf;
    var d := b.digits[v % b.base];
    PlaceOf(b, v % b.base);
    ValuePush(rest, d, b);
    ValuePush(rest + [d], ',', b);
    assert v == v / b.base * b.base + v % b.base;
  }

  lemma DigitsStep(v: nat, b: IntegerBase, grouped: bool, cnt: nat)
    requires Legible(b) && v > 0
    requires ValueOf(Reversed(Digits(v / b.base, b, grouped, cnt + 1)), b) == v / b.base
    ensures ValueOf(Reversed(Digits(v, b, grouped, cnt)), b) == v
  {
    hide Reversed, ToldApart, Digits, ValueOf;
    ReversedDigit(v, b, grouped, cnt);
    ValueStep(Reversed(Digits(v / b.base, b, grouped, cnt + 1)), v, b, grouped && cnt > 0 && cnt % b.group == 0);
  }

  lemma Smaller(v: nat, base: nat)
    requires v > 0 && base >= 8
    ensures v / base < v
  {
    Quotient(v, base);
  }

  /** The digits accumulated, read backwards, stand for the value. */
  lemma {:induction false} DigitsValue(v: nat, b: IntegerBase, grouped: bool, cnt: nat)
    requires Legible(b)
    ensures ValueOf(Reversed(Digits(v, b, grouped, cnt)), b) == v
    decreases v
  {
    if v == 0 {
      assert Reversed("") == "";
    } else {
      hide Reversed, ToldApart, Digits, ValueOf;
      Smaller(v, b.base);
      DigitsValue(v / b.base, b, grouped, cnt + 1);
      DigitsStep(v, b, grouped, cnt);
    }
  }

  lemma ReversedDigit(v: nat, b: IntegerBase, grouped: bool, cnt: nat)
    requires BaseOk(b) && v > 0
    ensures v / b.base < v
    ensures var rest := Reversed(Digits(v / b.base, b, grouped, cnt + 1)) + [b.digits[v % b.base]];
            Reversed(Digits(v, b, grouped, cnt)) ==
            if grouped && cnt > 0 && cnt % b.group == 0 then rest + [','] else rest
  {
    hide Reversed, Digit;
    var ds, d := Digits(v / b.base, b, grouped, cnt + 1), b.digits[v % b.base];
    NextDigit("", v, b, grouped, cnt);
    DigitIs(v, b, grouped, cnt);
    ReversedCons(d, ds);
    if grouped && cnt > 0 && cnt % b.group == 0 {
      assert Digits(v, b, grouped, cnt) == [','] + ([d] + ds);
      ReversedCons(',', [d] + ds);
    } else {
      assert Digits(v, b, grouped, cnt) == [d] + ds;
    }
  }

  /** The buffer, read backwards, is zeros before the digits. */
  lemma BufferZeros(v: nat, b: IntegerBase, c: Conversion) returns (more: nat)
    requires BaseOk(b)
    ensures Reversed(Buffer(v, b, c)) == Dup('0', more) + Reversed(Digits(v, b, c.group, 0))
  {
    hide Digits, Dup, Reversed;
    var ds := Digits(v, b, c.group, 0);
    var precision := if c.precision < 0 then 1 else c.precision;
    var want := if precision < 63 then precision else 63;
    more := if |ds| < want then want - |ds| else 0;
    if c.pound && b.base == 8
        && (ds + Dup('0', more) == "" || (ds + Dup('0', more))[|ds + Dup('0', more)| - 1] != '0') {
      assert Dup('0', more) + "0" == Dup('0', more + 1);
      Concat(ds, Dup('0', more), "0");
      more := more + 1;
    }
    assert Buffer(v, b, c) == ds + Dup('0', more);
    ReversedAppend(ds, Dup('0', more));
    ReversedDup(more);
  }

  /** The digits that `format_integer` writes stand for the value, in any base and whatever the flags. */
  lemma BufferValue(v: nat, b: IntegerBase, c: Conversion, pad: nat)
    requires Legible(b)
    ensures ValueOf(Dup('0', pad) + Reversed(Buffer(v, b, c)), b) == v
  {
    hide Digits, Buffer, Reversed, Dup, ToldApart, ValueOf;
    var more := BufferZeros(v, b, c);
    ValueZeros(pad, Reversed(Buffer(v, b, c)), b);
    ValueZeros(more, Reversed(Digits(v, b, c.group, 0)), b);
    DigitsValue(v, b, c.group, 0);
  }

  // ------------------------------------------------------------------- layout

  /** Which sign a conversion shows. */
  predicate Shows(c: Conversion, isSigned: bool, negative: bool, sign: string) {
    && (sign == "-" <==> isSigned && negative)
    && (sign == "+" <==> isSigned && !negative && c.plus)
    && (sign == " " <==> isSigned && !negative && !c.plus && c.space)
    && (sign == "-" || sign == "+" || sign == " " || sign == "")
  }

  /** Spaces, sign, prefix, digits with zeros before them, spaces. */
  ghost predicate IsLayout(out: string, left: nat, sign: string, x: string, digits: string, right: nat) {
    out == Dup(' ', left) + sign + x + digits + Dup(' ', right)
  }

  /**
   What `format_integer` writes is sign, prefix and digits that stand for the value, padded to the width on the
   side the flags say.
   */
  lemma RenderLayout(v: nat, isSigned: bool, negative: bool, b: IntegerBase, c: Conversion)
    returns (left: nat, sign: string, x: string, digits: string, right: nat)
    requires Legible(b)
    ensures IsLayout(Render(v, isSigned, negative, b, c), left, sign, x, digits, right)
    ensures Shows(c, isSigned, negative, sign) && ValueOf(digits, b) == v
    ensures x == (if c.pound && v > 0 && b.x.Some? then ['0', b.x.value] else "")
    ensures (c.minus || c.zero ==> left == 0) && (!c.minus ==> right == 0)
    ensures |digits| >= |Buffer(v, b, c)| && (!c.zero ==> |digits| == |Buffer(v, b, c)|)
  {
    hide Digits, Buffer, Reversed, Dup, ToldApart, ValueOf;
    sign := SignOf(c, isSigned, negative);
    x := Prefix(v, b, c);
    var ds := Reversed(Buffer(v, b, c));
    var pad: nat := Max(c.width - |ds| - |x| - |sign|, 0);
    left := if c.minus || c.zero then 0 else pad;
    var zeros := if c.zero then pad else 0;
    right := if c.minus then pad else 0;
    digits := Dup('0', zeros) + ds;
    BufferValue(v, b, c, zeros);
    DupNone();
    var l, z, r := Dup(' ', left), Dup('0', zeros), Dup(' ', right);
    assert Render(v, isSigned, negative, b, c) == l + sign + x + z + ds + r;
    Concat(l + sign + x, z, ds);
  }

  /**
   The output is as wide as asked for or as it must be, unless it is padded on both sides, as flags - and 0 together
   have it: a negative width from the arguments sets the former and does not clear the latter.
   */
  lemma RenderWidthIff(v: nat, isSigned: bool, negative: bool, b: IntegerBase, c: Conversion)
    requires BaseOk(b)
    ensures var n := |SignOf(c, isSigned, negative)| + |Prefix(v, b, c)| + |Buffer(v, b, c)|;
            var out := Render(v, isSigned, negative, b, c);
            && (|out| == Max(c.width, n) <==> !(c.minus && c.zero && c.width > n))
            && (c.minus && c.zero && c.width > n ==> |out| == c.width + (c.width - n))
  {
    hide Digits, Buffer;
  }

  /** 42 in a field of 5 with both flags is 8 characters wide. */
  lemma PaddedTwice()
    ensures RenderInt(42, Conversion(true, false, false, false, true, false, 5, -1)) == "00042   "
  {
    hide Digits, Dup, Reversed, Assemble, Buffer;
    var c := Conversion(true, false, false, false, true, false, 5, -1);
    DigitsOf42();
    BufferOf42(c);
    AssembleOf42(c);
  }

  lemma DigitsOf42()
    ensures Digits(42, BASE_D, false, 0) == "24" && Reversed("24") == "42"
  {
    hide Digit, Digits;
    DigitIs(42, BASE_D, false, 0);
    DigitIs(4, BASE_D, false, 1);
    NextDigit("", 42, BASE_D, false, 0);
    NextDigit("", 4, BASE_D, false, 1);
    NoDigits(BASE_D, false, 2);
    assert Digits(4, BASE_D, false, 1) == "4" by { assert "" + Digits(4, BASE_D, false, 1) == "4"; }
    assert "" + Digits(42, BASE_D, false, 0) == "24";
  }

  lemma BufferOf42(c: Conversion)
    requires !c.group && !c.pound && c.precision == -1 && Digits(42, BASE_D, false, 0) == "24"
    ensures Buffer(42, BASE_D, c) == "24"
  {
    hide Digits;
  }

  lemma AssembleOf42(c: Conversion)
    requires c.minus && c.zero && c.width == 5
    ensures Assemble(c, "", "", "42") == "00042   "
  {
    assert Dup('0', 3) == "000" && Dup(' ', 3) == "   ";
  }

  // ------------------------------------------------------------------- digits

  function Pow(base: nat, k: nat): (n: nat) {
    if k == 0 then 1 else base * Pow(base, k - 1)
  }

  /** Without commas there are no more digits than the value needs. */
  lemma {:induction false} DigitCount(v: nat, b: IntegerBase, cnt: nat)
    requires BaseOk(b) && v > 0
    ensures var n := |Digits(v, b, false, cnt)|; n > 0 && Pow(b.base, n - 1) <= v < Pow(b.base, n)
    decreases v
  {
    hide Digits, Pow;
    OneDigit(v, b, cnt);
    var n := |Digits(v / b.base, b, false, cnt + 1)|;
    PowNext(b.base, n);
    if v >= b.base {
      if v / b.base == 0 { Below(v, b.base); }
      DigitCount(v / b.base, b, cnt + 1);
      PowNext(b.base, n - 1);
      Scales(b.base, v, Pow(b.base, n - 1), Pow(b.base, n));
    } else {
      assert v / b.base == 0;
      NoDigits(b, false, cnt + 1);
    }
  }

  lemma OneDigit(v: nat, b: IntegerBase, cnt: nat)
    requires BaseOk(b) && v > 0
    ensures v / b.base < v && |Digits(v, b, false, cnt)| == |Digits(v / b.base, b, false, cnt + 1)| + 1
  {
    hide Digit, Digits;
    NextDigit("", v, b, false, cnt);
    DigitIs(v, b, false, cnt);
    assert |"" + Digits(v, b, false, cnt)| == |Digits(v, b, false, cnt)|;
  }

  lemma PowNext(base: nat, n: nat)
    ensures Pow(base, 0) == 1 && Pow(base, n + 1) == base * Pow(base, n)
  {
  }

  lemma Below(v: nat, base: nat)
    requires base > 0 && v / base == 0
    ensures v < base
  {
    assert v == base * (v / base) + v % base;
  }

  lemma Scales(base: nat, v: nat, lo: nat, hi: nat)
    requires base > 0 && lo <= v / base < hi
    ensures base * lo <= v < base * hi
  {
    var w := v / base;
    assert v == base * w + v % base;
    assert base * lo <= base * w by { MulMono(base, lo, w); }
    assert base * (w + 1) <= base * hi by { MulMono(base, w + 1, hi); }
  }

  lemma MulMono(m: nat, a: nat, b: nat)
    requires a <= b
    ensures m * a <= m * b
  {
    assert m * (b - a) >= 0;
  }

  lemma {:induction false} PowGrows(base: nat, i: nat, j: nat)
    requires base > 0 && i <= j
    ensures Pow(base, i) <= Pow(base, j)
  {
    if i < j {
      PowGrows(base, i, j - 1);
      MulMono(Pow(base, j - 1), 1, base);
    }
  }

  /** A value that needs `n` digits is written with as many, or with zeros up to the precision the buffer can hold. */
  lemma BufferLength(v: nat, b: IntegerBase, c: Conversion, n: nat)
    requires BaseOk(b) && !c.group && !(c.pound && b.base == 8)
    requires v < Pow(b.base, n) && (n > 0 ==> Pow(b.base, n - 1) <= v)
    ensures |Buffer(v, b, c)| == Max(n, if c.precision < 0 then 1 else if c.precision < 63 then c.precision else 63)
  {
    hide Digits, Pow;
    var m := |Digits(v, b, false, 0)|;
    assert m == n by {
      if v == 0 {
        NoDigits(b, false, 0);
        if n > 0 { PowGrows(b.base, 0, n - 1); PowNext(b.base, 0); }
      } else {
        DigitCount(v, b, 0);
        if n == 0 { PowNext(b.base, 0); }
        if m < n { PowGrows(b.base, m, n - 1); }
        if n < m { PowGrows(b.base, n, m - 1); }
      }
    }
  }

  /** A group of `g` digits is complete. */
  predicate Full(cnt: nat, g: nat)
    requires g >= 2
  {
    cnt > 0 && cnt % g == 0
  }

  /** Where the next character stands in its group of digits and comma. */
  function Residue(cnt: nat, g: nat): nat
    requires g >= 2
  {
    if Full(cnt, g) then g else cnt % g
  }

  /** The character at a place counted that way ends a group. */
  predicate EndsGroup(place: nat, g: nat) { place % (g + 1) == g }

  /** With the ' flag a comma follows every group of digits, counted from the right, and stands nowhere else. */
  lemma CommasGroup(v: nat, b: IntegerBase, j: nat)
    requires Legible(b) && j < |Digits(v, b, true, 0)|
    ensures Digits(v, b, true, 0)[j] == ',' <==> j % (b.group + 1) == b.group
  {
    hide Digits;
    CommasAt(v, b, 0, j);
  }

  lemma {:induction false} CommasAt(v: nat, b: IntegerBase, cnt: nat, j: nat)
    requires Legible(b) && j < |Digits(v, b, true, cnt)|
    ensures Digits(v, b, true, cnt)[j] == ',' <==> EndsGroup(Residue(cnt, b.group) + j, b.group)
    decreases v
  {
    hide ToldApart, Digits, Residue, Full, EndsGroup;
    OneMore(v, b, cnt);
    NextResidue(cnt, b.group);
    EndHere(Residue(cnt, b.group), b.group);
    EndWraps(j, b.group);
    if Full(cnt, b.group) {
      if j >= 2 { CommasAt(v / b.base, b, cnt + 1, j - 2); }
    } else {
      if j >= 1 { CommasAt(v / b.base, b, cnt + 1, j - 1); }
    }
  }

  lemma OneMore(v: nat, b: IntegerBase, cnt: nat)
    requires Legible(b) && Digits(v, b, true, cnt) != ""
    ensures v / b.base < v && b.digits[v % b.base] != ','
    ensures var d, rest := b.digits[v % b.base], Digits(v / b.base, b, true, cnt + 1);
            Digits(v, b, true, cnt) == if Full(cnt, b.group) then [',', d] + rest else [d] + rest
  {
    hide Digit, Place, ToldApart;
    PlaceOf(b, v % b.base);
    NextDigit("", v, b, true, cnt);
    DigitIs(v, b, true, cnt);
  }

  lemma EndHere(r: nat, g: nat)
    requires r <= g
    ensures EndsGroup(r, g) <==> r == g
  {
    DivMod(r, g + 1, 0, r);
  }

  lemma EndWraps(j: nat, g: nat)
    requires g >= 1
    ensures !EndsGroup(g + 1, g) && (j >= 2 ==> (EndsGroup(g + j, g) <==> EndsGroup(1 + (j - 2), g)))
  {
    DivMod(g + 1, g + 1, 1, 0);
    WrapOnce(g, j);
  }

  lemma NextResidue(cnt: nat, g: nat)
    requires g >= 2
    ensures Residue(cnt, g) <= g && (Residue(cnt, g) == g <==> Full(cnt, g))
    ensures Residue(cnt + 1, g) == if Full(cnt, g) then 1 else Residue(cnt, g) + 1
  {
    var q, r := cnt / g, cnt % g;
    assert cnt == g * q + r;
    if r + 1 < g {
      DivMod(cnt + 1, g, q, r + 1);
    } else {
      assert g * (q + 1) == g * q + g;
      DivMod(cnt + 1, g, q + 1, 0);
    }
  }

  lemma DivMod(n: nat, g: nat, q: nat, r: nat)
    requires g > 0 && n == g * q + r && r < g
    ensures n % g == r
  {
    var q', r' := n / g, n % g;
    assert n == g * q' + r';
    if q' < q { MulMono(g, q' + 1, q); }
    if q < q' { MulMono(g, q + 1, q'); }
  }

  lemma WrapOnce(g: nat, j: nat)
    ensures (g + j) % (g + 1) == if j == 0 then g else (j - 1) % (g + 1)
  {
    if j > 0 {
      var m := g + 1;
      var q, r := (j - 1) / m, (j - 1) % m;
      assert j - 1 == m * q + r;
      assert m * (q + 1) == m * q + m;
      DivMod(g + j, m, q + 1, r);
    }
  }

  /** `%#o` always starts with a zero. */
  lemma OctalStartsWithZero(v: nat, b: IntegerBase, c: Conversion)
    requires BaseOk(b) && b.base == 8 && c.pound
    ensures var s := Reversed(Buffer(v, b, c)); s != "" && s[0] == '0'
  {
    hide Digits;
  }

  // --------------------------------------------------------------------- atoi

  predicate AllDigits(ds: string) { forall i :: 0 <= i < |ds| ==> IsDigit(ds[i]) }

  /** What decimal digits stand for. */
  function Number(ds: string): (n: int)
    requires AllDigits(ds)
    ensures n >= 0
  {
    if ds == "" then 0 else Number(ds[..|ds| - 1]) * 10 + (ds[|ds| - 1] as int - '0' as int)
  }

  /** The loop of `atoi` reads the digits, unless their number is beyond 2^31. */
  lemma {:induction false} ParseNumber(ds: string, rest: string)
    requires AllDigits(ds)
    ensures ParseDigits(ds + rest, 0) == if Number(ds) <= 0x8000_0000 then ParseDigits(rest, -Number(ds)) else None
    decreases |ds|
  {
    if ds == "" {
      assert ds + rest == rest;
    } else {
      var pre, d := ds[..|ds| - 1], ds[|ds| - 1];
      assert ds + rest == pre + ([d] + rest);
      ParseNumber(pre, [d] + rest);
      assert ([d] + rest)[1..] == rest;
    }
  }

  lemma {:induction false} SkipAll(ws: string, rest: string)
    requires forall i :: 0 <= i < |ws| ==> IsSpace(ws[i])
    ensures SkipSpace(ws + rest) == SkipSpace(rest)
  {
    if ws == "" {
      assert ws + rest == rest;
    } else {
      assert (ws + rest)[1..] == ws[1..] + rest;
      SkipAll(ws[1..], rest);
    }
  }

  lemma ParseStops(rest: string, acc: int)
    requires rest != "" ==> !IsDigit(rest[0])
    ensures ParseDigits(rest, acc) == Some(acc)
  {
  }

  lemma NothingToSkip(t: string)
    requires t != "" ==> !IsSpace(t[0])
    ensures SkipSpace(t) == t
  {
  }

  /**
   `atoi` reads spaces, an optional sign and digits up to the first other character, and gives their number if that
   is an int; there is no overflow on the way exactly then.
   */
  lemma AtoiReads(ws: string, sign: string, ds: string, rest: string)
    requires (forall i :: 0 <= i < |ws| ==> IsSpace(ws[i])) && AllDigits(ds)
    requires (sign == "" || sign == "+" || sign == "-") && (rest != "" ==> !IsDigit(rest[0]))
    requires sign == "" && ds == "" && rest != "" ==> !IsSpace(rest[0]) && rest[0] != '+' && rest[0] != '-'
    ensures var v := if sign == "-" then -Number(ds) else Number(ds);
            Atoi(ws + (sign + (ds + rest))) == if INT_MIN <= v <= INT_MAX then Some(v) else None
  {
    hide Number, ParseDigits, SkipSpace;
    var t := sign + (ds + rest);
    SkipAll(ws, t);
    ParseNumber(ds, rest);
    ParseStops(rest, -Number(ds));
    if sign == "" {
      assert t == ds + rest;
      assert t != "" ==> t[0] == if ds == "" then rest[0] else ds[0];
    } else {
      assert t[0] == sign[0] && t[1..] == ds + rest;
    }
    NothingToSkip(t);
  }
}
