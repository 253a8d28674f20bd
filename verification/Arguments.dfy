/**
 Splitting a command line (lib/string.c, `strtok_r`) and building the argument stack of a new
 process (userprog/process.c) in the page below PHYS_BASE.
 */
module Arguments {
  import opened Base
  import opened DiskFormat

  const SPACE: byte := 32

  // -------------------------------------------------------------------- tokens

  /** How many bytes come before the first space. */
  function TokenLength(s: seq<byte>): (n: nat)
    ensures n <= |s| && SPACE !in s[..n] && (n < |s| ==> s[n] == SPACE)
  {
    if s == [] || s[0] == SPACE then 0 else 1 + TokenLength(s[1..])
  }

  /** The maximal runs of bytes other than spaces. */
  function Tokens(s: seq<byte>): (ts: seq<seq<byte>>)
    decreases |s|
  {
    if s == [] then []
    else if s[0] == SPACE then Tokens(s[1..])
    else [s[..TokenLength(s)]] + Tokens(s[TokenLength(s)..])
  }

  predicate IsToken(t: seq<byte>) { t != [] && SPACE !in t }

  /** Tokens separated by single spaces. */
  function Join(ts: seq<seq<byte>>): (s: seq<byte>) {
    if ts == [] then [] else if |ts| == 1 then ts[0] else ts[0] + [SPACE] + Join(ts[1..])
  }

  lemma {:induction false} TokenLengthIs(t: seq<byte>, rest: seq<byte>)
    requires SPACE !in t && (rest != [] ==> rest[0] == SPACE)
    ensures TokenLength(t + rest) == |t|
  {
    var s := t + rest;
    if t == [] {
      assert s == rest;
    } else {
      var tail := t[1..];
      assert s[0] == t[0] && t[0] in t;
      assert s[1..] == tail + rest;
      assert forall b :: b in tail ==> b in t;
      TokenLengthIs(tail, rest);
    }
  }

  /** Splitting undoes joining. */
  lemma {:induction false} TokensOfJoin(ts: seq<seq<byte>>)
    requires forall i :: 0 <= i < |ts| ==> IsToken(ts[i])
    ensures Tokens(Join(ts)) == ts
  {
    if |ts| == 1 {
      TokenLengthIs(ts[0], []);
      assert ts[0] + [] == ts[0] && ts[0][0] in ts[0];
    } else if |ts| > 1 {
      var rest := [SPACE] + Join(ts[1..]);
      var s := Join(ts);
      assert s == ts[0] + rest && s[0] == ts[0][0] && ts[0][0] in ts[0];
      TokenLengthIs(ts[0], rest);
      assert s[|ts[0]|..] == rest && s[..|ts[0]|] == ts[0];
      assert rest[1..] == Join(ts[1..]);
      TokensOfJoin(ts[1..]);
    }
  }

  /** Splitting gives tokens. */
  lemma {:induction false} TokensAreTokens(s: seq<byte>)
    ensures forall i :: 0 <= i < |Tokens(s)| ==>
                IsToken(Tokens(s)[i]) && |Tokens(s)[i]| <= |s| && forall b :: b in Tokens(s)[i] ==> b in s
    decreases |s|
  {
    if s != [] {
      if s[0] == SPACE {
        TokensAreTokens(s[1..]);
      } else {
        var n := TokenLength(s);
        TokensAreTokens(s[n..]);
        forall i | 0 <= i < |Tokens(s)|
          ensures IsToken(Tokens(s)[i]) && |Tokens(s)[i]| <= |s| && forall b :: b in Tokens(s)[i] ==> b in s
        {
          if i > 0 { assert Tokens(s)[i] == Tokens(s[n..])[i - 1]; }
        }
      }
    }
  }

  // ------------------------------------------------------------------ strtok_r

  /** The buffer from `from` on still holds the rest of the line, up to its null at the end. */
  ghost predicate Holds(b: seq<byte>, from: nat, rest: seq<byte>) {
    from + |rest| + 1 == |b| && b[from..|b| - 1] == rest && b[|b| - 1] == 0 && 0 !in rest
  }

  /** A null ends the string at `start` before `save`, or at it if nothing is left to split. */
  ghost predicate Ended(b: seq<byte>, start: nat, save: nat, rest: seq<byte>) {
    exists e :: start <= e <= save && e < |b| && b[e] == 0 && (e == save ==> rest == [])
  }

  /** The first loop of `strtok_r`. */
  method SkipSpaces(buf: array<byte>, s0: nat, ghost rest: seq<byte>) returns (s: nat, ghost r: seq<byte>)
    requires Holds(buf[..], s0, rest)
    ensures s0 <= s < buf.Length && Holds(buf[..], s, r) && |r| <= |rest| && Tokens(r) == Tokens(rest)
    ensures buf[s] != SPACE
  {
    s, r := s0, rest;
    while buf[s] == SPACE
      invariant s0 <= s < buf.Length && Holds(buf[..], s, r) && |r| <= |rest| && Tokens(r) == Tokens(rest)
      decreases |r|
    {
      FirstByte(buf[..], s, r);
      r := r[1..];
      s := s + 1;
    }
  }

  lemma FirstByte(b: seq<byte>, s: nat, r: seq<byte>)
    requires Holds(b, s, r) && s < |b|
    ensures if b[s] == 0 then r == [] else r != [] && r[0] == b[s] && Holds(b, s + 1, r[1..])
  {
    if r != [] {
      assert r[0] == b[s..|b| - 1][0] && r[0] in r;
      assert b[s + 1..|b| - 1] == b[s..|b| - 1][1..];
    }
  }

  /** The second loop of `strtok_r`: the end of the token that starts at `t`. */
  method FindEnd(buf: array<byte>, t: nat, ghost r: seq<byte>) returns (s: nat)
    requires t < buf.Length && Holds(buf[..], t, r)
    ensures t <= s < buf.Length && s - t == TokenLength(r)
    ensures (if s == buf.Length - 1 then buf[s] == 0 else buf[s] == SPACE)
  {
    s := t;
    while buf[s] != SPACE && buf[s] != 0
      invariant t <= s < buf.Length && s - t <= TokenLength(r)
      decreases buf.Length - s
    {
      InToken(buf[..], t, r, s);
      s := s + 1;
    }
    AtDelimiter(buf[..], t, r, s);
  }

  /**
   `strtok_r` with a space as delimiter: skips spaces, ends the token with a null in the buffer, and remembers
   where to go on.
   */
  method StrtokR(buf: array<byte>, s0: nat, ghost rest: seq<byte>)
    returns (token: Option<nat>, save: nat, ghost rest': seq<byte>)
    requires Holds(buf[..], s0, rest)
    modifies buf
    ensures Holds(buf[..], save, rest')
    ensures token.None? ==> Tokens(rest) == [] && buf[..] == old(buf[..])
    ensures token.Some? ==>
              && s0 <= token.value <= save < buf.Length && |rest'| < |rest|
              && buf[..token.value] == old(buf[..token.value])
              && Tokens(rest) == [CString(buf[token.value..])] + Tokens(rest')
              && Ended(buf[..], token.value, save, rest')
  {
    hide Tokens, Ended, CString, TokenLength;
    var t;
    ghost var r;
    t, r := SkipSpaces(buf, s0, rest);
    FirstByte(buf[..], t, r);
    if buf[t] == 0 {
      NoTokens();
      return None, t, r;
    }
    token := Some(t);
    var s := FindEnd(buf, t, r);
    ghost var b := buf[..];
    if buf[s] != 0 {
      buf[s] := 0;
      save, rest' := s + 1, r[TokenLength(r) + 1..];
      CutAtSpace(b, t, r, s);
    } else {
      save, rest' := s, [];
      CutAtEnd(b, t, r, s);
    }
  }

  lemma NoTokens()
    ensures Tokens([]) == []
  {
  }

  /** Overwriting the space after a token with a null. */
  lemma CutAtSpace(b: seq<byte>, t: nat, r: seq<byte>, s: nat)
    requires Holds(b, t, r) && r != [] && r[0] != SPACE && s == t + TokenLength(r) && s < |b| - 1
    ensures var b' := b[s := 0]; var rest' := r[TokenLength(r) + 1..];
            && Holds(b', s + 1, rest') && Tokens(r) == [CString(b'[t..])] + Tokens(rest') && Ended(b', t, s + 1, rest')
            && b'[..t] == b[..t]
  {
    hide Tokens, CString;
    var n := TokenLength(r);
    var b' := b[s := 0];
    CutHolds(b, t, r, s);
    TokenThenRest(r);
    CutString(b, t, r, s);
    assert b'[s] == 0;
  }

  lemma CutHolds(b: seq<byte>, t: nat, r: seq<byte>, s: nat)
    requires Holds(b, t, r) && t <= s < |b| - 1
    ensures Holds(b[s := 0], s + 1, r[s - t + 1..]) && b[s := 0][..t] == b[..t]
  {
    assert b[s := 0][s + 1..|b| - 1] == b[t..|b| - 1][s - t + 1..];
  }

  lemma CutString(b: seq<byte>, t: nat, r: seq<byte>, s: nat)
    requires Holds(b, t, r) && t <= s < |b| - 1
    ensures CString(b[s := 0][t..]) == r[..s - t]
  {
    hide CString;
    var b' := b[s := 0];
    assert b'[t..][..s - t] == b[t..|b| - 1][..s - t];
    CStringIs(b'[t..], r[..s - t]);
  }

  lemma CutAtEnd(b: seq<byte>, t: nat, r: seq<byte>, s: nat)
    requires Holds(b, t, r) && r != [] && r[0] != SPACE && s == t + TokenLength(r) && s == |b| - 1
    ensures Holds(b, s, []) && Tokens(r) == [CString(b[t..])] + Tokens([]) && Ended(b, t, s, [])
  {
    hide Tokens, CString;
    TokenThenEnd(r);
    assert r[..TokenLength(r)] == r;
    assert b[t..][..|r|] == b[t..|b| - 1] == r;
    CStringIs(b[t..], r);
    assert b[s] == 0;
  }

  lemma InToken(b: seq<byte>, t: nat, r: seq<byte>, s: nat)
    requires Holds(b, t, r) && t <= s < |b| && s - t <= TokenLength(r) && b[s] != SPACE && b[s] != 0
    ensures s + 1 < |b| && s + 1 - t <= TokenLength(r)
  {
    assert s < |b| - 1 && r[s - t] == b[t..|b| - 1][s - t] == b[s];
  }

  lemma AtDelimiter(b: seq<byte>, t: nat, r: seq<byte>, s: nat)
    requires Holds(b, t, r) && t <= s < |b| && s - t <= TokenLength(r) && (b[s] == SPACE || b[s] == 0)
    ensures s - t == TokenLength(r) && (if s == |b| - 1 then b[s] == 0 else b[s] == SPACE)
  {
    if s < |b| - 1 {
      assert r[s - t] == b[t..|b| - 1][s - t] == b[s] && r[s - t] in r;
      NoSpaceBefore(r, s - t);
    }
  }

  lemma {:induction false} NoSpaceBefore(r: seq<byte>, i: nat)
    requires i < |r| && r[i] == SPACE
    ensures TokenLength(r) <= i
  {
    if i > 0 { NoSpaceBefore(r[1..], i - 1); }
  }

  lemma TokenThenRest(r: seq<byte>)
    requires r != [] && r[0] != SPACE && TokenLength(r) < |r|
    ensures var n := TokenLength(r); Tokens(r) == [r[..n]] + Tokens(r[n + 1..])
  {
    var n := TokenLength(r);
    assert r[n..][0] == SPACE && r[n..][1..] == r[n + 1..];
  }

  lemma TokenThenEnd(r: seq<byte>)
    requires r != [] && r[0] != SPACE && TokenLength(r) == |r|
    ensures Tokens(r) == [r[..TokenLength(r)]] + Tokens([])
  {
    assert r[|r|..] == [];
  }

  lemma {:induction false} NullBound(b: seq<byte>, i: nat)
    requires i < |b| && b[i] == 0
    ensures |CString(b)| <= i
  {
    if i > 0 && b[0] != 0 { NullBound(b[1..], i - 1); }
  }

  /** Later calls leave the tokens already found alone. */
  lemma TokenKept(b: seq<byte>, b': seq<byte>, start: nat, save: nat, rest: seq<byte>, k: nat)
    requires |b'| == |b| && Ended(b, start, save, rest) && rest != [] && save <= k <= |b| && b'[..k] == b[..k]
    ensures CString(b'[start..]) == CString(b[start..]) && exists e :: start <= e < save && e < |b| && b'[e] == 0
  {
    hide CString;
    var e :| start <= e <= save && e < |b| && b[e] == 0 && (e == save ==> rest == []);
    assert b'[e] == b'[..k][e] == b[..k][e];
    SamePrefix(b, b', start, e, k);
  }

  /** A string depends on the bytes up to a null only. */
  lemma SamePrefix(b: seq<byte>, b': seq<byte>, start: nat, e: nat, k: nat)
    requires |b'| == |b| && start <= e < k <= |b| && b[e] == 0 && b'[..k] == b[..k]
    ensures CString(b'[start..]) == CString(b[start..])
  {
    hide CString;
    var c := CString(b[start..]);
    NullBound(b[start..], e - start);
    forall j | 0 <= j < k ensures b'[j] == b[j] { assert b'[..k][j] == b[..k][j]; }
    assert b'[start..][..|c|] == b[start..][..|c|];
    CStringIs(b'[start..], c);
  }

  /** The strings found so far are the first tokens of the line, and stay so. */
  ghost predicate Found(b: seq<byte>, starts: seq<nat>, tokens: seq<seq<byte>>, save: nat, rest: seq<byte>) {
    |starts| == |tokens| && forall i :: 0 <= i < |starts| ==>
      starts[i] < |b| && CString(b[starts[i]..]) == tokens[i] && Ended(b, starts[i], save, rest)
  }

  lemma FoundKept(b: seq<byte>, b': seq<byte>, starts: seq<nat>, tokens: seq<seq<byte>>, save: nat, rest: seq<byte>,
                  k: nat, save': nat, rest': seq<byte>)
    requires |b'| == |b| && Found(b, starts, tokens, save, rest) && rest != [] && save <= k <= save' && k <= |b|
    requires b'[..k] == b[..k]
    ensures Found(b', starts, tokens, save', rest')
  {
    forall i | 0 <= i < |starts| ensures CString(b'[starts[i]..]) == tokens[i] && Ended(b', starts[i], save', rest') {
      TokenKept(b, b', starts[i], save, rest, k);
    }
  }

  /** The size of the array `execute_thread` keeps the tokens in. */
  const MAX_ARGS: nat := 100

  /**
   The loop of `execute_thread` that splits the command line: where each token starts.  `overrun` stands for a store
   behind the end of the array, which nothing in the source prevents.
   */
  method Split(buf: array<byte>, argv: array<nat>, ghost line: seq<byte>) returns (count: nat, overrun: bool)
    requires Holds(buf[..], 0, line) && argv.Length == MAX_ARGS
    modifies buf, argv
    ensures overrun <==> |Tokens(line)| > MAX_ARGS
    ensures !overrun ==> count == |Tokens(line)| && Starts(buf[..], argv[..count], Tokens(line))
  {
    hide Tokens, Ended, CString, Starts;
    count := 0;
    var save := 0;
    ghost var rest, tokens := line, [];
    while true
      invariant count <= argv.Length && Holds(buf[..], save, rest) && Tokens(line) == tokens + Tokens(rest)
      invariant Found(buf[..], argv[..count], tokens, save, rest)
      decreases |rest|
    {
      ghost var b, starts := buf[..], argv[..count];
      var token, next;
      ghost var rest';
      token, next, rest' := StrtokR(buf, save, rest);
      if token.None? { break; }
      if count == argv.Length { return count, true; }
      assert b[..token.value] == buf[..][..token.value];
      SomeRest(rest);
      FoundKept(b, buf[..], starts, tokens, save, rest, token.value, next, rest');
      assert buf[..][token.value..] == buf[token.value..];
      tokens := tokens + [CString(buf[token.value..])];
      argv[count] := token.value;
      count := count + 1;
      assert argv[..count] == starts + [token.value];
      save, rest := next, rest';
    }
    FoundStarts(buf[..], argv[..count], tokens, save, rest);
    assert tokens + [] == tokens;
    overrun := false;
  }

  /** The strings at the given places are the tokens. */
  ghost predicate Starts(b: seq<byte>, starts: seq<nat>, tokens: seq<seq<byte>>) {
    |starts| == |tokens| && forall i :: 0 <= i < |starts| ==> starts[i] < |b| && CString(b[starts[i]..]) == tokens[i]
  }

  lemma FoundStarts(b: seq<byte>, starts: seq<nat>, tokens: seq<seq<byte>>, save: nat, rest: seq<byte>)
    requires Found(b, starts, tokens, save, rest)
    ensures Starts(b, starts, tokens)
  {
  }

  lemma SomeRest(rest: seq<byte>)
    requires Tokens(rest) != []
    ensures rest != []
  {
  }

  // --------------------------------------------------------------------- stack

  const STACK_BASE: nat := PHYS_BASE - PGSIZE     // address of the page's first byte

  /** The argument strings with their nulls, one after the other. */
  function Strings(args: seq<seq<byte>>): (s: seq<byte>) {
    if args == [] then [] else Strings(args[..|args| - 1]) + args[|args| - 1] + [0]
  }

  /** Bytes between the strings and the words below them: one to four. */
  function Padding(sum: nat): nat { 4 - sum % 4 }

  /** The address of each string when the strings end at the top of the page. */
  function Pointer(args: seq<seq<byte>>, i: nat): (p: int)
    requires i <= |args|
  {
    PHYS_BASE - |Strings(args)| + |Strings(args[..i])|
  }

  function Pointers(args: seq<seq<byte>>, n: nat): (s: seq<byte>)
    requires n <= |args| && |Strings(args)| <= PHYS_BASE
    ensures |s| == 4 * n
  {
    if n == 0 then [] else
    PointerPositive(args, n - 1);
    Pointers(args, n - 1) + Le32(Pointer(args, n - 1))
  }

  lemma {:induction false} StringsPrefix(args: seq<seq<byte>>, i: nat)
    requires i <= |args|
    ensures |Strings(args[..i])| <= |Strings(args)| && Strings(args)[..|Strings(args[..i])|] == Strings(args[..i])
  {
    if i < |args| {
      var rest := args[..|args| - 1];
      StringsPrefix(rest, i);
      assert rest[..i] == args[..i];
    } else {
      assert args[..i] == args;
    }
  }

  lemma PointerPositive(args: seq<seq<byte>>, i: nat)
    requires i <= |args| && |Strings(args)| <= PHYS_BASE
    ensures 0 <= Pointer(args, i) <= PHYS_BASE
  {
    StringsPrefix(args, i);
  }

  /** How many bytes the whole layout takes, down to the place of a return address. */
  function Needed(args: seq<seq<byte>>): nat {
    |Strings(args)| + Padding(|Strings(args)|) + 4 * (|args| + 1) + 12
  }

  /** Where the pointers to the strings start. */
  function Argv(args: seq<seq<byte>>): (p: int) {
    PHYS_BASE - |Strings(args)| - Padding(|Strings(args)|) - 4 * (|args| + 1)
  }

  /** The top of the stack page: argc, argv, the pointers, a null pointer, padding, the strings. */
  function Layout(args: seq<seq<byte>>): (s: seq<byte>)
    requires Needed(args) <= PGSIZE
    ensures |s| == Needed(args) - 4
  {
    Le32(|args|) + Le32(Argv(args)) + Pointers(args, |args|) + Le32(0) + Zeros(Padding(|Strings(args)|)) + Strings(args)
  }

  /** The word at an address of the stack page. */
  function WordAt(m: seq<byte>, addr: int): (w: nat)
    requires |m| == PGSIZE && STACK_BASE <= addr && addr + 4 <= PHYS_BASE
  {
    FromLe32(m[addr - STACK_BASE..addr - STACK_BASE + 4])
  }

  /** The string at an address of the stack page. */
  function StringAt(m: seq<byte>, addr: int): (s: seq<byte>)
    requires |m| == PGSIZE && STACK_BASE <= addr <= PHYS_BASE
  {
    CString(m[addr - STACK_BASE..])
  }

  // ---------------------------------------------------------------- reading back

  /** The stack page with the layout at its top. */
  ghost predicate Built(m: seq<byte>, args: seq<seq<byte>>) {
    |m| == PGSIZE && Needed(args) <= PGSIZE && m[PGSIZE - |Layout(args)|..] == Layout(args)
  }

  lemma {:induction false} PointersRead(args: seq<seq<byte>>, n: nat, i: nat)
    requires i < n <= |args| && |Strings(args)| <= PHYS_BASE
    ensures Pointers(args, n)[4 * i..4 * i + 4] == (PointerPositive(args, i); Le32(Pointer(args, i)))
  {
    var head := Pointers(args, n - 1);
    if i < n - 1 {
      PointersRead(args, n - 1, i);
      assert Pointers(args, n)[4 * i..4 * i + 4] == head[4 * i..4 * i + 4];
    }
  }

  /** String `i` is where its pointer says. */
  lemma {:induction false} StringsRead(args: seq<seq<byte>>, i: nat)
    requires i < |args| && 0 !in args[i]
    ensures var o := |Strings(args[..i])|;
            o + |args[i]| < |Strings(args)| && Strings(args)[o..o + |args[i]|] == args[i]
                && Strings(args)[o + |args[i]|] == 0
            && |Strings(args[..i + 1])| == o + |args[i]| + 1
  {
    assert args[..i + 1][..i] == args[..i] && args[..i + 1][i] == args[i];
    StringsPrefix(args, i + 1);
    var o := |Strings(args[..i])|;
    assert Strings(args[..i + 1]) == Strings(args[..i]) + args[i] + [0];
    assert Strings(args)[..o + |args[i]| + 1] == Strings(args[..i + 1]);
    assert Strings(args)[o..o + |args[i]|] == Strings(args)[..o + |args[i]| + 1][o..o + |args[i]|];
    assert Strings(args)[o + |args[i]|] == Strings(args)[..o + |args[i]| + 1][o + |args[i]|];
  }

  /** The words of the layout, by their place in it. */
  lemma LayoutWords(args: seq<seq<byte>>)
    requires Needed(args) <= PGSIZE
    ensures var l, n := Layout(args), |args|;
            && l[0..4] == Le32(n) && l[4..8] == Le32(Argv(args)) && l[8..8 + 4 * n] == Pointers(args, n)
            && l[8 + 4 * n..12 + 4 * n] == Le32(0) && l[|l| - |Strings(args)|..] == Strings(args)
  {
    hide Le32, Pointers, Strings, Zeros;
    var l, n := Layout(args), |args|;
    var z := Zeros(Padding(|Strings(args)|));
    assert l == Le32(n) + (Le32(Argv(args)) + (Pointers(args, n) + (Le32(0) + (z + Strings(args)))));
  }

  lemma TopSlice(m: seq<byte>, l: seq<byte>, o: nat, n: nat)
    requires |l| <= |m| && m[|m| - |l|..] == l && o + n <= |l|
    ensures m[|m| - |l| + o..|m| - |l| + o + n] == l[o..o + n] && m[|m| - |l| + o..] == l[o..]
  {
    assert m[|m| - |l|..][o..] == m[|m| - |l| + o..];
  }

  lemma WordReads(m: seq<byte>, l: seq<byte>, o: nat, v: nat)
    requires |m| == PGSIZE && |l| <= PGSIZE && m[PGSIZE - |l|..] == l && o + 4 <= |l| && v < 0x1_0000_0000
    requires l[o..o + 4] == Le32(v)
    ensures WordAt(m, PHYS_BASE - |l| + o) == v
  {
    hide Le32, FromLe32;
    TopSlice(m, l, o, 4);
    Le32RoundTrip(v);
  }

  /** The padding makes the words below it aligned. */
  lemma Aligned(args: seq<seq<byte>>)
    ensures (PHYS_BASE - Needed(args)) % 4 == 0 && Argv(args) == PHYS_BASE - Needed(args) + 12
  {
    var sum := |Strings(args)|;
    assert (sum + Padding(sum)) % 4 == 0;
  }

  /** From the stack pointer on: argc, then a pointer to the argument pointers; all words are aligned. */
  lemma HeadReads(m: seq<byte>, args: seq<seq<byte>>)
    requires Built(m, args)
    ensures var esp := PHYS_BASE - Needed(args);
            && esp >= STACK_BASE && esp % 4 == 0 && Argv(args) == esp + 12 && Argv(args) + 4 * |args| + 4 <= PHYS_BASE
            && WordAt(m, esp + 4) == |args| && WordAt(m, esp + 8) == Argv(args)
            && WordAt(m, Argv(args) + 4 * |args|) == 0
  {
    hide Layout, Pointers, Strings, WordAt, Le32, Padding;
    LayoutWords(args);
    Aligned(args);
    var l := Layout(args);
    WordReads(m, l, 0, |args|);
    WordReads(m, l, 4, Argv(args));
    WordReads(m, l, 8 + 4 * |args|, 0);
  }

  lemma PointerReads(m: seq<byte>, args: seq<seq<byte>>, i: nat)
    requires Built(m, args) && i < |args|
    ensures var p := Argv(args) + 4 * i; STACK_BASE <= p && p + 4 <= PHYS_BASE && WordAt(m, p) == Pointer(args, i)
  {
    hide Layout, Pointers, Strings, WordAt, Le32, Padding;
    LayoutWords(args);
    Aligned(args);
    var l := Layout(args);
    PointersRead(args, |args|, i);
    PointerPositive(args, i);
    assert l[8 + 4 * i..8 + 4 * i + 4] == l[8..8 + 4 * |args|][4 * i..4 * i + 4];
    WordReads(m, l, 8 + 4 * i, Pointer(args, i));
  }

  lemma StringReads(m: seq<byte>, args: seq<seq<byte>>, i: nat)
    requires Built(m, args) && i < |args| && 0 !in args[i]
    ensures STACK_BASE <= Pointer(args, i) < PHYS_BASE && StringAt(m, Pointer(args, i)) == args[i]
  {
    hide Layout, Pointers, Strings, CString;
    LayoutWords(args);
    var l := Layout(args);
    StringsRead(args, i);
    var o := |l| - |Strings(args)| + |Strings(args[..i])|;
    TopSlice(m, l, o, 0);
    var tail := m[Pointer(args, i) - STACK_BASE..];
    TailOfStrings(l, args, i, tail);
    CStringIs(tail, args[i]);
  }

  lemma TailOfStrings(l: seq<byte>, args: seq<seq<byte>>, i: nat, tail: seq<byte>)
    requires i < |args| && 0 !in args[i] && |Strings(args)| <= |l| && l[|l| - |Strings(args)|..] == Strings(args)
    requires |Strings(args[..i])| <= |Strings(args)| && tail == l[|l| - |Strings(args)| + |Strings(args[..i])|..]
    ensures |args[i]| < |tail| && tail[..|args[i]|] == args[i] && tail[|args[i]|] == 0
  {
    hide Strings;
    StringsRead(args, i);
    assert tail == Strings(args)[|Strings(args[..i])|..];
  }

  /** The argument pointers lead to the arguments, in order, one behind the other, above all words. */
  lemma ArgReads(m: seq<byte>, args: seq<seq<byte>>, i: nat)
    requires Built(m, args) && i < |args| && 0 !in args[i]
    ensures var p := Argv(args) + 4 * i;
            && STACK_BASE <= p && p + 4 <= PHYS_BASE && WordAt(m, p) == Pointer(args, i)
            && Argv(args) + 4 * (|args| + 1) < Pointer(args, i) < PHYS_BASE && StringAt(m, Pointer(args, i)) == args[i]
            && Pointer(args, i) + |args[i]| + 1 == Pointer(args, i + 1)
  {
    hide Layout, Pointers, Strings, CString, Built, WordAt, StringAt;
    PointerReads(m, args, i);
    StringReads(m, args, i);
    StringsRead(args, i);
  }

  // ------------------------------------------------------------------- building

  /** Bytes written over a memory. */
  function Overlay(m: seq<byte>, at: nat, b: seq<byte>): (r: seq<byte>)
    requires at + |b| <= |m|
    ensures |r| == |m|
  {
    m[..at] + b + m[at + |b|..]
  }

  lemma OverlayAppend(m: seq<byte>, at: nat, b: seq<byte>, c: seq<byte>)
    requires at + |b| + |c| <= |m|
    ensures Overlay(Overlay(m, at, b), at + |b|, c) == Overlay(m, at, b + c)
  {
  }

  lemma OverlayPrepend(m: seq<byte>, at: nat, b: seq<byte>, c: seq<byte>)
    requires |c| <= at && at + |b| <= |m|
    ensures Overlay(Overlay(m, at, b), at - |c|, c) == Overlay(m, at - |c|, c + b)
  {
  }

  /** A store of bytes from `at` on, as `strlcpy` and the word stores do it. */
  method Store(mem: array<byte>, at: nat, b: seq<byte>)
    requires at + |b| <= mem.Length
    modifies mem
    ensures mem[..] == Overlay(old(mem[..]), at, b)
  {
    hide Overlay;
    ghost var m := mem[..];
    OverlayNothing(m, at);
    for i := 0 to |b|
      invariant mem[..] == Overlay(m, at, b[..i])
    {
      OverlayPut(m, at, b, i);
      mem[at + i] := b[i];
    }
    assert b[..|b|] == b;
  }

  lemma OverlayNothing(m: seq<byte>, at: nat)
    requires at <= |m|
    ensures Overlay(m, at, []) == m
  {
  }

  lemma OverlayPut(m: seq<byte>, at: nat, b: seq<byte>, i: nat)
    requires at + |b| <= |m| && i < |b|
    ensures Overlay(m, at, b[..i])[at + i := b[i]] == Overlay(m, at, b[..i + 1])
  {
    var l, r := Overlay(m, at, b[..i])[at + i := b[i]], Overlay(m, at, b[..i + 1]);
    forall k | 0 <= k < |m| ensures l[k] == r[k] { }
  }

  /** The sum of the lengths of the arguments with their nulls. */
  method Total(args: seq<seq<byte>>) returns (sum: nat)
    ensures sum == |Strings(args)|
  {
    sum := 0;
    for i := 0 to |args|
      invariant sum == |Strings(args[..i])|
    {
      assert args[..i + 1][..i] == args[..i];
      sum := sum + |args[i]| + 1;
    }
    assert args[..|args|] == args;
  }

  lemma NoStrings(args: seq<seq<byte>>)
    ensures Strings(args[..0]) == []
  {
  }

  lemma NextString(args: seq<seq<byte>>, i: nat)
    requires i < |args|
    ensures Strings(args[..i + 1]) == Strings(args[..i]) + (args[i] + [0])
  {
    assert args[..i + 1][..i] == args[..i];
    assert Strings(args[..i]) + args[i] + [0] == Strings(args[..i]) + (args[i] + [0]);
  }

  /** The loop that copies the strings to the top of the page. */
  method StoreStrings(mem: array<byte>, args: seq<seq<byte>>, top: nat)
    requires top + |Strings(args)| == mem.Length
    modifies mem
    ensures mem[..] == Overlay(old(mem[..]), top, Strings(args))
  {
    hide Strings, Overlay;
    var temp := top;
    NoStrings(args);
    OverlayNothing(mem[..], top);
    for i := 0 to |args|
      invariant temp == top + |Strings(args[..i])| <= mem.Length
      invariant mem[..] == Overlay(old(mem[..]), top, Strings(args[..i]))
    {
      StringsPrefix(args, i + 1);
      NextString(args, i);
      OverlayAppend(old(mem[..]), top, Strings(args[..i]), args[i] + [0]);
      Store(mem, temp, args[i] + [0]);
      temp := temp + |args[i]| + 1;
    }
    assert args[..|args|] == args;
  }

  /** The loop that stores the pointers to the strings. */
  method StorePointers(mem: array<byte>, args: seq<seq<byte>>, at: nat)
    requires at + 4 * |args| <= mem.Length && |Strings(args)| <= PHYS_BASE
    modifies mem
    ensures mem[..] == Overlay(old(mem[..]), at, Pointers(args, |args|))
  {
    hide Le32, Overlay;
    var offset := PHYS_BASE - |Strings(args)|;
    assert args[..0] == [];
    OverlayNothing(mem[..], at);
    for i := 0 to |args|
      invariant offset == Pointer(args, i) && mem[..] == Overlay(old(mem[..]), at, Pointers(args, i))
    {
      PointerPositive(args, i);
      OverlayAppend(old(mem[..]), at, Pointers(args, i), Le32(offset));
      Store(mem, at + 4 * i, Le32(offset));
      assert args[..i + 1][..i] == args[..i];
      offset := offset + |args[i]| + 1;
    }
  }

  /** The part of `execute_thread` that lays out the arguments: the stack pointer it leaves, and the page. */
  method BuildStack(mem: array<byte>, args: seq<seq<byte>>) returns (esp: int)
    requires mem.Length == PGSIZE && Needed(args) <= PGSIZE
    modifies mem
    ensures esp == PHYS_BASE - Needed(args) && Built(mem[..], args)
    ensures mem[..esp + 4 - STACK_BASE] == old(mem[..esp + 4 - STACK_BASE])
  {
    hide Strings, Pointers, Le32, Zeros, Overlay;
    ghost var m := mem[..];
    var sum := Total(args);
    var top := PGSIZE - sum;
    StoreStrings(mem, args, top);
    var align := top - Padding(sum);
    Store(mem, align, Zeros(Padding(sum)));
    ghost var below := Zeros(Padding(sum)) + Strings(args);
    OverlayPrepend(m, top, Strings(args), Zeros(Padding(sum)));
    var argvs := align - 4 * (|args| + 1);
    StorePointers(mem, args, argvs);
    ghost var padded := Overlay(m, align, below);
    Store(mem, argvs + 4 * |args|, Le32(0));
    OverlayAppend(padded, argvs, Pointers(args, |args|), Le32(0));
    OverlayPrepend(m, align, below, Pointers(args, |args|) + Le32(0));
    ghost var words := Pointers(args, |args|) + Le32(0) + below;
    Store(mem, argvs - 4, Le32(STACK_BASE + argvs));
    OverlayPrepend(m, argvs, words, Le32(STACK_BASE + argvs));
    Store(mem, argvs - 8, Le32(|args|));
    OverlayPrepend(m, argvs - 4, Le32(STACK_BASE + argvs) + words, Le32(|args|));
    esp := STACK_BASE + argvs - 12;
    LayoutIs(args, words, below);
    TopIs(m, argvs - 8, Layout(args));
  }

  lemma LayoutIs(args: seq<seq<byte>>, words: seq<byte>, below: seq<byte>)
    requires Needed(args) <= PGSIZE && below == Zeros(Padding(|Strings(args)|)) + Strings(args)
    requires words == Pointers(args, |args|) + Le32(0) + below
    ensures Layout(args) == Le32(|args|) + (Le32(Argv(args)) + words)
  {
    hide Strings, Pointers, Le32, Zeros;
  }

  lemma TopIs(m: seq<byte>, at: nat, b: seq<byte>)
    requires at + |b| == |m|
    ensures Overlay(m, at, b)[at..] == b && Overlay(m, at, b)[..at] == m[..at]
  {
  }

  predicate WordInPage(addr: int) { STACK_BASE <= addr && addr + 4 <= PHYS_BASE }

  /** The word at an address points to a string. */
  ghost predicate PointsTo(m: seq<byte>, addr: int, arg: seq<byte>)
    requires |m| == PGSIZE
  {
    WordInPage(addr) && STACK_BASE <= WordAt(m, addr) < PHYS_BASE && StringAt(m, WordAt(m, addr)) == arg
  }

  /** What `main` finds above the stack pointer: argc, and argv with a pointer to each argument and a null pointer. */
  ghost predicate Passes(m: seq<byte>, esp: int, args: seq<seq<byte>>) {
    && |m| == PGSIZE && WordInPage(esp) && WordInPage(esp + 4) && WordInPage(esp + 8)
    && WordAt(m, esp + 4) == |args|
    && (forall i :: 0 <= i < |args| ==> PointsTo(m, WordAt(m, esp + 8) + 4 * i, args[i]))
    && WordInPage(WordAt(m, esp + 8) + 4 * |args|) && WordAt(m, WordAt(m, esp + 8) + 4 * |args|) == 0
  }

  lemma BuiltPasses(m: seq<byte>, args: seq<seq<byte>>)
    requires Built(m, args) && forall i :: 0 <= i < |args| ==> 0 !in args[i]
    ensures Passes(m, PHYS_BASE - Needed(args), args)
  {
    hide Layout, Pointers, Strings, CString, Built, WordAt, StringAt, Needed, Argv, PointsTo;
    BuiltIsPage(m, args);
    HeadReads(m, args);
    forall i | 0 <= i < |args| ensures PointsTo(m, Argv(args) + 4 * i, args[i]) {
      ArgPointsTo(m, args, i);
    }
  }

  lemma ArgPointsTo(m: seq<byte>, args: seq<seq<byte>>, i: nat)
    requires Built(m, args) && i < |args| && 0 !in args[i]
    ensures |m| == PGSIZE && PointsTo(m, Argv(args) + 4 * i, args[i])
  {
    hide Layout, Pointers, Strings, CString, Built, WordAt, StringAt, Needed, Argv;
    BuiltIsPage(m, args);
    ArgReads(m, args, i);
    StringReads(m, args, i);
  }

  lemma BuiltIsPage(m: seq<byte>, args: seq<seq<byte>>)
    requires Built(m, args)
    ensures |m| == PGSIZE
  {
  }

  /**
   Following argc and argv from the stack pointer reads back the tokens of the command line, then a null pointer.
   */
  lemma CommandLineReads(m: seq<byte>, line: seq<byte>)
    requires 0 !in line && Built(m, Tokens(line))
    ensures Passes(m, PHYS_BASE - Needed(Tokens(line)), Tokens(line))
  {
    hide Built, Tokens, Needed, Passes;
    TokensAreTokens(line);
    BuiltPasses(m, Tokens(line));
  }

  /** The strings that start where `Split` found tokens. */
  method Gather(buf: array<byte>, argv: array<nat>, count: nat, ghost tokens: seq<seq<byte>>)
    returns (args: seq<seq<byte>>)
    requires count <= argv.Length && Starts(buf[..], argv[..count], tokens)
    ensures args == tokens
  {
    args := [];
    for i := 0 to count
      invariant args == tokens[..i]
    {
      assert argv[..count][i] == argv[i] && buf[..][argv[i]..] == buf[argv[i]..];
      args := args + [CString(buf[argv[i]..])];
    }
  }

  /**
   `execute_thread` from the command line to the stack pointer of the new process: what `main` finds there is the
   tokens of the line.  The source needs a token, as it reads the first one, and room for all of them.
   */
  method PassArguments(buf: array<byte>, mem: array<byte>, ghost line: seq<byte>) returns (esp: int)
    requires Holds(buf[..], 0, line) && buf != mem && mem.Length == PGSIZE && Needed(Tokens(line)) <= PGSIZE
    requires 1 <= |Tokens(line)| <= MAX_ARGS
    modifies buf, mem
    ensures Passes(mem[..], esp, Tokens(line)) && esp == PHYS_BASE - Needed(Tokens(line)) && esp % 4 == 0
    ensures mem[..esp + 4 - STACK_BASE] == old(mem[..esp + 4 - STACK_BASE])
  {
    hide Tokens, CString, Passes, Needed, Built, Starts;
    var argv := new nat[MAX_ARGS];
    var count, overrun := Split(buf, argv, line);
    var args := Gather(buf, argv, count, Tokens(line));
    esp := BuildStack(mem, args);
    CommandLineReads(mem[..], line);
    Aligned(args);
  }

  // ------------------------------------------------------------ too many tokens

  /** One-letter tokens. */
  function Letters(n: nat): (ts: seq<seq<byte>>)
    ensures |ts| == n && forall i :: 0 <= i < n ==> ts[i] == [97]
  {
    seq(n, _ => [97])
  }

  lemma {:induction false} JoinOfLetters(n: nat)
    requires n > 0
    ensures |Join(Letters(n))| == 2 * n - 1 && 0 !in Join(Letters(n))
  {
    if n > 1 {
      assert Letters(n)[1..] == Letters(n - 1);
      JoinOfLetters(n - 1);
    }
  }

  lemma {:induction false} StringsOfLetters(n: nat)
    ensures |Strings(Letters(n))| == 2 * n
  {
    if n > 0 {
      assert Letters(n)[..n - 1] == Letters(n - 1);
      StringsOfLetters(n - 1);
    }
  }

  /**
   A line that fits its page and whose arguments would fit the stack page, with one token more than the array holds.
   */
  lemma TooManyTokens()
    ensures var line := Join(Letters(101));
            |line| == 201 && 0 !in line && |Tokens(line)| == MAX_ARGS + 1 && Needed(Tokens(line)) <= PGSIZE
  {
    TokensOfJoin(Letters(101));
    JoinOfLetters(101);
    StringsOfLetters(101);
  }
}
