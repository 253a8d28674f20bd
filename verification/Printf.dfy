/** Integer formatting (lib/stdio.c) and `atoi` (lib/stdlib.c). */
module Printf {
  import opened Base

  const INT_MIN: int := -0x8000_0000
  const INT_MAX: int := 0x7fff_ffff

  // ---------------------------------------------------------------------- atoi

  predicate IsSpace(c: char) { c == ' ' || c == '\t' || c == '\n' || c == '\r' || c as int == 11 || c as int == 12 }

  predicate IsDigit(c: char) { '0' <= c <= '9' }

  function SkipSpace(s: string): (r: string)
    ensures |r| <= |s|
  {
    if s != [] && IsSpace(s[0]) then SkipSpace(s[1..]) else s
  }

  /** The loop of `atoi`, accumulating downward; nothing if the accumulator leaves the range of an int. */
  function ParseDigits(s: string, acc: int): (r: Option<int>) {
    if s == [] || !IsDigit(s[0]) then Some(acc)
    else
      var a := acc * 10 - (s[0] as int - '0' as int);
      if a < INT_MIN || a > INT_MAX then None else ParseDigits(s[1..], a)
  }

  /** `atoi`; nothing if a signed overflow happens on the way. */
  function Atoi(s: string): (r: Option<int>) {
    var t := SkipSpace(s);
    var negative := t != [] && t[0] == '-';
    var digits := if t != [] && (t[0] == '+' || t[0] == '-') then t[1..] else t;
    match ParseDigits(digits, 0)
    case None => None
    case Some(v) => if negative then Some(v) else if -v > INT_MAX then None else Some(-v)
  }

  /** `atoi` as its loops run; `s` is the string up to its null. */
  method DoAtoi(s: string) returns (value: int)
    requires Atoi(s).Some?
    ensures Some(value) == Atoi(s)
  {
    var i := 0;
    while i < |s| && IsSpace(s[i])
      invariant i <= |s| && SkipSpace(s[i..]) == SkipSpace(s)
    {
      assert s[i..][1..] == s[i + 1..];
      i := i + 1;
    }
    assert SkipSpace(s) == s[i..];
    var negative := false;
    if i < |s| && s[i] == '+' {
      i := i + 1;
    } else if i < |s| && s[i] == '-' {
      negative := true;
      i := i + 1;
    }
    value := 0;
    ghost var start := i;
    while i < |s| && IsDigit(s[i])
      invariant start <= i <= |s| && ParseDigits(s[i..], value) == ParseDigits(s[start..], 0)
      invariant ParseDigits(s[start..], 0).Some?
    {
      assert s[i..][1..] == s[i + 1..];
      value := value * 10 - (s[i] as int - '0' as int);
      i := i + 1;
    }
    if !negative { value := -value; }
  }

  // ----------------------------------------------------------- format_integer

  /** `struct integer_base`. */
  datatype IntegerBase = IntegerBase(base: nat, digits: string, x: Option<char>, group: nat)

  const BASE_D: IntegerBase := IntegerBase(10, "0123456789", None, 3)

  /** `struct printf_conversion`; precision -1 means none. */
  datatype Conversion = Conversion(minus: bool, plus: bool, space: bool, pound: bool, zero: bool, group: bool,
      width: nat, precision: int)

  /** What all the bases of the table have in common: octal is the smallest. */
  predicate BaseOk(b: IntegerBase) { 8 <= b.base <= |b.digits| && b.group > 0 }

  const UINTMAX_MAX: nat := 0xffff_ffff_ffff_ffff

  function Dup(c: char, n: nat): (s: string)
    ensures |s| == n && forall i :: 0 <= i < n ==> s[i] == c
  {
    seq(n, _ => c)
  }

  /** The sign character, if any. */
  function SignOf(c: Conversion, isSigned: bool, negative: bool): (s: string) {
    if !isSigned then ""
    else if c.plus then (if negative then "-" else "+")
    else if c.space then (if negative then "-" else " ")
    else if negative then "-" else ""
  }

  /** One digit for the buffer, after a comma if the digits are grouped and a group is complete. */
  function Digit(v: nat, b: IntegerBase, grouped: bool, cnt: nat): (s: string)
    requires BaseOk(b)
  {
    (if grouped && cnt > 0 && cnt % b.group == 0 then "," else "") + [b.digits[v % b.base]]
  }

  /** The digits of a value, least significant first; `cnt` digits came before. */
  function Digits(v: nat, b: IntegerBase, grouped: bool, cnt: nat): (s: string)
    requires BaseOk(b)
    decreases v
  {
    if v == 0 then "" else Digit(v, b, grouped, cnt) + Digits(v / b.base, b, grouped, cnt + 1)
  }

  function Max(a: int, b: int): int { if a < b then b else a }

  /** The buffer after digits, zeros up to the precision (the buffer holds 63), and the zero of `%#o`. */
  function Buffer(v: nat, b: IntegerBase, c: Conversion): (s: string)
    requires BaseOk(b)
  {
    var ds := Digits(v, b, c.group, 0);
    var precision := if c.precision < 0 then 1 else c.precision;
    var want := if precision < 63 then precision else 63;
    var s := ds + Dup('0', if |ds| < want then want - |ds| else 0);
    if c.pound && b.base == 8 && (s == "" || s[|s| - 1] != '0') then s + "0" else s
  }

  function Reversed(s: string): (r: string)
    ensures |r| == |s| && forall i :: 0 <= i < |s| ==> r[i] == s[|s| - 1 - i]
  {
    seq(|s|, i requires 0 <= i < |s| => s[|s| - 1 - i])
  }

  /** Sign, prefix and digits, padded to the field width on the side the flags say. */
  function Assemble(c: Conversion, sign: string, x: string, digits: string): (s: string) {
    var pad := Max(c.width - |digits| - |x| - |sign|, 0);
    (if c.minus || c.zero then "" else Dup(' ', pad)) + sign + x
    + (if c.zero then Dup('0', pad) else "") + digits + (if c.minus then Dup(' ', pad) else "")
  }

  /** The `0x` of a hexadecimal conversion of a nonzero value with the # flag. */
  function Prefix(v: nat, b: IntegerBase, c: Conversion): (s: string) {
    if c.pound && v > 0 && b.x.Some? then ['0', b.x.value] else ""
  }

  /** What `format_integer` writes. */
  function Render(v: nat, isSigned: bool, negative: bool, b: IntegerBase, c: Conversion): (s: string)
    requires BaseOk(b)
  {
    Assemble(c, SignOf(c, isSigned, negative), Prefix(v, b, c), Reversed(Buffer(v, b, c)))
  }

  /** `%d` of a 32-bit value. */
  function RenderInt(v: int, c: Conversion): (s: string) {
    Render(if v < 0 then -v else v, true, v < 0, BASE_D, c)
  }

  /** Eight to a power: the values of that many octal digits. */
  function Octals(k: nat): (n: nat)
    ensures n > 0
  {
    if k == 0 then 1 else 8 * Octals(k - 1)
  }

  /** A value below a power of eight has at most so many digits, and as many commas. */
  lemma {:induction false} DigitsFit(v: nat, b: IntegerBase, grouped: bool, cnt: nat, k: nat)
    requires BaseOk(b) && v < Octals(k)
    ensures |Digits(v, b, grouped, cnt)| <= 2 * k
    decreases k
  {
    if v > 0 {
      Quotient(v, b.base);
      DigitsFit(v / b.base, b, grouped, cnt + 1, k - 1);
    }
  }

  lemma Quotient(v: nat, base: nat)
    requires base >= 8
    ensures 8 * (v / base) <= v
  {
    assert v == base * (v / base) + v % base;
    assert (base - 8) * (v / base) >= 0;
  }

  lemma SixtyFourBits()
    ensures UINTMAX_MAX < Octals(22)
  {
    assert Octals(4) == 4096;
    assert Octals(8) == 0x100_0000;
    assert Octals(12) == 0x10_0000_0000;
    assert Octals(16) == 0x1_0000_0000_0000;
    assert Octals(20) == 0x1000_0000_0000_0000;
  }

  /** Digits, commas, zeros and the zero of `%#o` of a 64-bit value fit the 64 bytes of the buffer. */
  lemma BufferFits(v: nat, b: IntegerBase, c: Conversion)
    requires BaseOk(b) && v <= UINTMAX_MAX
    ensures |Buffer(v, b, c)| <= 64 && |Digits(v, b, c.group, 0)| <= 44
  {
    hide Digits;
    SixtyFourBits();
    DigitsFit(v, b, c.group, 0, 22);
  }

  /** The loop that accumulates digits into the buffer: where it ends. */
  method Accumulate(buf: array<char>, value0: nat, b: IntegerBase, c: Conversion) returns (cp: nat)
    requires BaseOk(b) && value0 <= UINTMAX_MAX && buf.Length == 64
    modifies buf
    ensures cp <= 44 && buf[..cp] == Digits(value0, b, c.group, 0)
  {
    hide Digit, Digits, Octals, Buffer;
    cp := 0;
    var value: nat, digitCnt: nat := value0, 0;
    BufferFits(value0, b, c);
    while value > 0
      invariant cp <= 44 && buf[..cp] + Digits(value, b, c.group, digitCnt) == Digits(value0, b, c.group, 0)
      decreases value
    {
      NextDigit(buf[..cp], value, b, c.group, digitCnt);
      DigitIs(value, b, c.group, digitCnt);
      ghost var done := buf[..cp];
      if c.group && digitCnt > 0 && digitCnt % b.group == 0 {
        buf[cp] := ',';
        cp := cp + 1;
      }
      buf[cp] := b.digits[value % b.base];
      cp := cp + 1;
      assert buf[..cp] == done + Digit(value, b, c.group, digitCnt);
      value := value / b.base;
      digitCnt := digitCnt + 1;
    }
    NoDigits(b, c.group, digitCnt);
  }

  lemma DigitIs(v: nat, b: IntegerBase, grouped: bool, cnt: nat)
    requires BaseOk(b)
    ensures var d := b.digits[v % b.base];
            Digit(v, b, grouped, cnt) == if grouped && cnt > 0 && cnt % b.group == 0 then [',', d] else [d]
  {
  }

  lemma NextDigit(buf: string, v: nat, b: IntegerBase, grouped: bool, cnt: nat)
    requires BaseOk(b) && v > 0
    ensures v / b.base < v
    ensures buf + Digits(v, b, grouped, cnt)
            == buf + Digit(v, b, grouped, cnt) + Digits(v / b.base, b, grouped, cnt + 1)
  {
    hide Digit;
    assert v == v / b.base * b.base + v % b.base;
    Concat(buf, Digit(v, b, grouped, cnt), Digits(v / b.base, b, grouped, cnt + 1));
  }

  lemma NoDigits(b: IntegerBase, grouped: bool, cnt: nat)
    requires BaseOk(b)
    ensures Digits(0, b, grouped, cnt) == ""
  {
  }

  lemma Concat(s: string, t: string, u: string)
    ensures s + t + u == s + (t + u)
  {
  }

  /** The loop that appends zeros up to the precision, or until the buffer has one place left. */
  method PadZeros(buf: array<char>, cp0: nat, precision: nat) returns (cp: nat)
    requires cp0 <= 63 && buf.Length == 64
    modifies buf
    ensures var want := if precision < 63 then precision else 63;
            cp <= 63 && buf[..cp] == old(buf[..cp0]) + Dup('0', if cp0 < want then want - cp0 else 0)
  {
    cp := cp0;
    while cp < precision && cp < buf.Length - 1
      invariant cp0 <= cp <= 63 && buf[..cp] == old(buf[..cp0]) + Dup('0', cp - cp0) && (cp > cp0 ==> cp <= precision)
    {
      buf[cp] := '0';
      cp := cp + 1;
    }
  }

  /** The loop that outputs the buffer backwards. */
  method Backwards(buf: array<char>, cp0: nat, head: string) returns (out: string)
    requires cp0 <= buf.Length
    ensures out == head + Reversed(buf[..cp0])
  {
    out := head;
    var cp := cp0;
    while cp > 0
      invariant 0 <= cp <= cp0 && out == head + Reversed(buf[..cp0])[..cp0 - cp]
    {
      cp := cp - 1;
      out := out + [buf[cp]];
    }
    assert Reversed(buf[..cp0])[..cp0] == Reversed(buf[..cp0]);
  }

  /** The output part of `format_integer`. */
  method Output(c: Conversion, sign: string, x: string, buf: array<char>, cp: nat) returns (out: string)
    requires cp <= buf.Length
    ensures out == Assemble(c, sign, x, Reversed(buf[..cp]))
  {
    hide Reversed, Dup;
    var pad := c.width - cp - |x| - |sign|;
    if pad < 0 { pad := 0; }
    out := "";
    if !(c.minus || c.zero) { out := Dup(' ', pad); }
    out := out + sign + x;
    if c.zero { out := out + Dup('0', pad); } else { assert out + "" == out; }
    out := Backwards(buf, cp, out);
    if c.minus { out := out + Dup(' ', pad); } else { assert out + "" == out; }
  }

  /** `format_integer`, with its buffer of 64 bytes. */
  method FormatInteger(value: nat, isSigned: bool, negative: bool, b: IntegerBase, c: Conversion) returns (out: string)
    requires BaseOk(b) && value <= UINTMAX_MAX
    ensures out == Render(value, isSigned, negative, b, c)
  {
    hide Digits, Reversed, Dup, Assemble;
    var buf := new char[64];
    var cp := Accumulate(buf, value, b, c);
    cp := PadZeros(buf, cp, if c.precision < 0 then 1 else c.precision);
    if c.pound && b.base == 8 && (cp == 0 || buf[cp - 1] != '0') {
      ghost var done := buf[..cp];
      buf[cp] := '0';
      cp := cp + 1;
      assert buf[..cp] == done + "0";
    }
    assert buf[..cp] == Buffer(value, b, c);
    out := Output(c, SignOf(c, isSigned, negative), Prefix(value, b, c), buf, cp);
  }

  // -------------------------------------------------------------- round trip

  /** The decimal digits of a value, most significant first. */
  function Decimal(v: nat): (s: string) {
    if v == 0 then "" else Decimal(v / 10) + [BASE_D.digits[v % 10]]
  }

  lemma {:induction false} DigitsReversed(v: nat, cnt: nat)
    ensures Reversed(Digits(v, BASE_D, false, cnt)) == Decimal(v)
    decreases v
  {
    if v > 0 {
      DigitsReversed(v / 10, cnt + 1);
      var rest := Digits(v / 10, BASE_D, false, cnt + 1);
      assert Digits(v, BASE_D, false, cnt)
          == [BASE_D.digits[v % 10]] + rest by { assert "" + [BASE_D.digits[v % 10]] == [BASE_D.digits[v % 10]]; }
      ReversedCons(BASE_D.digits[v % 10], rest);
    }
  }

  lemma ReversedCons(c: char, s: string)
    ensures Reversed([c] + s) == Reversed(s) + [c]
  {
  }

  lemma ReversedAppend(s: string, t: string)
    ensures Reversed(s + t) == Reversed(t) + Reversed(s)
  {
  }

  /** Reading the digits of a value that fits gives the value, negated, with no overflow on the way. */
  lemma {:induction false} ParseDecimal(v: nat, rest: string)
    requires INT_MIN <= 0 - v
    ensures ParseDigits(Decimal(v) + rest, 0) == ParseDigits(rest, 0 - v)
    decreases v
  {
    if v == 0 {
      assert "" + rest == rest;
    } else {
      var d := BASE_D.digits[v % 10];
      DigitChar(v % 10);
      assert Decimal(v) + rest == Decimal(v / 10) + ([d] + rest);
      ParseDecimal(v / 10, [d] + rest);
      assert ([d] + rest)[1..] == rest;
    }
  }

  lemma DigitChar(k: nat)
    requires k < 10
    ensures IsDigit(BASE_D.digits[k]) && BASE_D.digits[k] as int - '0' as int == k
  {
  }

  lemma {:induction false} ParseZeros(n: nat, rest: string)
    ensures ParseDigits(Dup('0', n) + rest, 0) == ParseDigits(rest, 0)
  {
    if n == 0 {
      assert Dup('0', 0) + rest == rest;
    } else {
      var s := Dup('0', n) + rest;
      assert s[1..] == Dup('0', n - 1) + rest;
      ParseZeros(n - 1, rest);
    }
  }

  lemma {:induction false} SkipSpaces(n: nat, rest: string)
    ensures SkipSpace(Dup(' ', n) + rest) == SkipSpace(rest)
  {
    if n == 0 {
      assert Dup(' ', 0) + rest == rest;
    } else {
      assert (Dup(' ', n) + rest)[1..] == Dup(' ', n - 1) + rest;
      SkipSpaces(n - 1, rest);
    }
  }

  /** Padding with spaces before or behind, or with zeros behind the sign. */
  lemma AssembleShape(c: Conversion, sign: string, digits: string) returns (left: nat, zeros: nat, right: nat)
    ensures Assemble(c, sign, "", digits) == Dup(' ', left) + (sign + (Dup('0', zeros) + (digits + Dup(' ', right))))
  {
    hide Dup;
    var pad: nat := Max(c.width - |digits| - 0 - |sign|, 0);
    left := if c.minus || c.zero then 0 else pad;
    zeros := if c.zero then pad else 0;
    right := if c.minus then pad else 0;
    var l := if c.minus || c.zero then "" else Dup(' ', pad);
    var z := if c.zero then Dup('0', pad) else "";
    var r := if c.minus then Dup(' ', pad) else "";
    DupNone();
    assert l == Dup(' ', left) && z == Dup('0', zeros) && r == Dup(' ', right);
    assert l + sign + "" + z + digits + r == l + (sign + (z + (digits + r)));
  }

  lemma DupNone()
    ensures Dup(' ', 0) == "" && Dup('0', 0) == ""
  {
  }

  /** The buffer of a decimal conversion, read backwards: zeros, then the digits. */
  lemma BufferShape(v: nat, c: Conversion) returns (more: nat)
    requires !c.group
    ensures Reversed(Buffer(v, BASE_D, c)) == Dup('0', more) + Decimal(v)
  {
    hide Digits, Decimal, Dup, Reversed;
    var ds := Digits(v, BASE_D, false, 0);
    var precision := if c.precision < 0 then 1 else c.precision;
    var want := if precision < 63 then precision else 63;
    more := if |ds| < want then want - |ds| else 0;
    assert Buffer(v, BASE_D, c) == ds + Dup('0', more);
    ReversedAppend(ds, Dup('0', more));
    ReversedDup(more);
    DigitsReversed(v, 0);
  }

  lemma ReversedDup(n: nat)
    ensures Reversed(Dup('0', n)) == Dup('0', n)
  {
  }

  /** Digits behind zeros and before spaces read as the value. */
  lemma ParseField(v: nat, more: nat, zeros: nat, right: nat)
    requires INT_MIN <= 0 - v
    ensures ParseDigits(Dup('0', zeros) + (Dup('0', more) + Decimal(v) + Dup(' ', right)), 0) == Some(0 - v)
  {
    hide ParseDigits, Decimal, Dup;
    Concat(Dup('0', more), Decimal(v), Dup(' ', right));
    ParseZeros(zeros, Dup('0', more) + Decimal(v) + Dup(' ', right));
    ParseZeros(more, Decimal(v) + Dup(' ', right));
    ParseDecimal(v, Dup(' ', right));
    ParseEnd(right, 0 - v);
  }

  lemma ParseEnd(n: nat, acc: int)
    ensures ParseDigits(Dup(' ', n), acc) == Some(acc)
  {
  }

  /** A field is empty, starts with a digit, or is all spaces. */
  ghost predicate IsField(f: string) { f != [] ==> IsDigit(f[0]) || f == Dup(' ', |f|) }

  lemma FieldStart(v: nat, more: nat, zeros: nat, right: nat)
    ensures IsField(Dup('0', zeros) + (Dup('0', more) + Decimal(v) + Dup(' ', right)))
  {
    DecimalStart(v);
    var f := Dup('0', zeros) + (Dup('0', more) + Decimal(v) + Dup(' ', right));
    if zeros == 0 && more == 0 && Decimal(v) == "" { assert f == Dup(' ', right); }
  }

  lemma {:induction false} DecimalStart(v: nat)
    ensures Decimal(v) != "" ==> IsDigit(Decimal(v)[0])
  {
    if v > 0 {
      DecimalStart(v / 10);
      DigitChar(v % 10);
    }
  }

  /** Leading spaces do not matter to `atoi`. */
  lemma AtoiSpaces(n: nat, rest: string)
    ensures Atoi(Dup(' ', n) + rest) == Atoi(rest)
  {
    SkipSpaces(n, rest);
  }

  /** What `atoi` makes of a sign and a field. */
  lemma AtoiField(v: int, sign: string, field: string)
    requires INT_MIN <= v <= INT_MAX && ParseDigits(field, 0) == Some(-(if v < 0 then -v else v)) && IsField(field)
    requires if v < 0 then sign == "-" else sign == "" || sign == "+" || sign == " "
    ensures Atoi(sign + field) == Some(v)
  {
    if sign == "" {
      assert sign + field == field;
      NoSign(v, field);
    } else if sign == " " {
      assert sign + field == Dup(' ', 1) + field;
      AtoiSpaces(1, field);
      NoSign(v, field);
    } else {
      assert (sign + field)[1..] == field;
    }
  }

  lemma NoSign(v: int, field: string)
    requires 0 <= v <= INT_MAX && ParseDigits(field, 0) == Some(-v) && IsField(field)
    ensures Atoi(field) == Some(v)
  {
    if field != [] && !IsDigit(field[0]) {
      assert field == Dup(' ', |field|) + "";
      SkipSpaces(|field|, "");
    }
  }

  /**
   `atoi` of the `%d` rendering of an int gives it back, with no overflow on the way, whatever the width, precision and
   flags.
   */
  lemma AtoiOfRender(v: int, c: Conversion)
    requires INT_MIN <= v <= INT_MAX && !c.group
    ensures Atoi(RenderInt(v, c)) == Some(v)
  {
    hide Digits, Decimal, Dup, Reversed, Buffer, Assemble, ParseDigits, IsField, Atoi;
    var a := if v < 0 then -v else v;
    var sign := SignOf(c, true, v < 0);
    var more := BufferShape(a, c);
    var left, zeros, right := AssembleShape(c, sign, Dup('0', more) + Decimal(a));
    var field := Dup('0', zeros) + (Dup('0', more) + Decimal(a) + Dup(' ', right));
    ParseField(a, more, zeros, right);
    FieldStart(a, more, zeros, right);
    AtoiField(v, sign, field);
    AtoiSpaces(left, sign + field);
    assert RenderInt(v, c) == Assemble(c, sign, "", Reversed(Buffer(a, BASE_D, c)));
  }

  // ----------------------------------------------------------------- vsnprintf

  /** `struct vsnprintf_aux` and its helper, fed the characters `out` one by one. */
  method Vsnprintf(buffer: array<char>, out: string) returns (length: nat)
    modifies buffer
    ensures length == |out|
    ensures var n := if buffer.Length == 0 then 0 else if |out| <= buffer.Length - 1 then |out| else buffer.Length - 1;
            && buffer[..n] == out[..n] && (buffer.Length > 0 ==> buffer[n] as int == 0)
            && (forall i :: n < i < buffer.Length ==> buffer[i] == old(buffer[i]))
  {
    var p := 0;
    length := 0;
    var maxLength := if buffer.Length > 0 then buffer.Length - 1 else 0;
    for i := 0 to |out|
      invariant length == i && p == (if i <= maxLength then i else maxLength) && p <= buffer.Length
      invariant buffer[..p] == out[..p] && forall k :: p <= k < buffer.Length ==> buffer[k] == old(buffer[k])
    {
      if length < maxLength {
        buffer[p] := out[i];
        p := p + 1;
      }
      length := length + 1;
    }
    if buffer.Length > 0 { buffer[p] := 0 as char; }
  }
}
