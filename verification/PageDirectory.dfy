/**
 The two-level page directory (userprog/pagedir.c, threads/pte.h, threads/vaddr.h), in the layout of
 section 3.7.6 of IA-32 volume 3A.  Words and addresses are integers; a flag is a power of two.
 */
module PageDirectory {
  import opened Base
  import Arithmetic

  const PTE_P: nat := 0x1
  const PTE_W: nat := 0x2
  const PTE_U: nat := 0x4
  const PTE_A: nat := 0x20
  const PTE_D: nat := 0x40

  const ENTRIES: nat := 1024
  const USER_PAGES: nat := PHYS_BASE / PGSIZE
  const USER_TABLES: nat := PHYS_BASE / (PGSIZE * ENTRIES)

  // ---------------------------------------------------------------------- words

  /** `word & flag` is nonzero. */
  predicate Flag(w: nat, f: nat)
    requires f > 0
  {
    w / f % 2 == 1
  }

  /** `word |= flag` or `word &= ~flag`. */
  function SetFlag(w: nat, f: nat, v: bool): (r: int)
    requires f > 0
  {
    if Flag(w, f) == v then w else if v then w + f else w - f
  }

  /** `pte_get_page` and `pde_get_pt`: the frame a word points to. */
  function Frame(w: nat): nat { w / PGSIZE }

  /** `pte_create_user`. */
  function UserPte(frame: nat, writable: bool): nat { frame * PGSIZE + PTE_P + PTE_U + if writable then PTE_W else 0 }

  /** `pde_create`. */
  function TablePde(frame: nat): nat { frame * PGSIZE + PTE_P + PTE_W + PTE_U }

  predicate IsFlag(f: nat) { f == PTE_P || f == PTE_W || f == PTE_U || f == PTE_A || f == PTE_D }

  /** The flag's bit is added or taken away, and nothing carries beyond it. */
  lemma FlagStep(w: nat, f: nat)
    requires f > 0
    ensures !Flag(w, f) ==> (w + f) / f == w / f + 1 && (w + f) / f / 2 == w / f / 2
    ensures Flag(w, f) ==> w >= f && (w - f) / f == w / f - 1 && (w - f) / f / 2 == w / f / 2
  {
    assert w == w / f * f + w % f;
    assert (w / f + 1) * f == w / f * f + f && (w / f + 1 + 1) * f == w / f * f + f + f;
    assert (w / f - 1) * f == w / f * f - f;
    Arithmetic.DivUnique(w + f, f, w / f + 1);
    Arithmetic.DivUnique(w - f, f, w / f - 1);
    if Flag(w, f) { Arithmetic.MulMono(1, w / f, f); }
  }

  /** Quotients by a multiple of `2 * f` do not see the flag. */
  lemma AboveFlag(w: nat, f: nat, v: bool, m: nat)
    requires f > 0 && m > 0
    ensures SetFlag(w, f, v) >= 0 && f * 2 * m > 0 && SetFlag(w, f, v) / (f * 2 * m) == w / (f * 2 * m)
  {
    FlagStep(w, f);
    var x := SetFlag(w, f, v);
    Arithmetic.DivDiv(w, f, 2);
    Arithmetic.DivDiv(x, f, 2);
    Arithmetic.DivDiv(w, f * 2, m);
    Arithmetic.DivDiv(x, f * 2, m);
  }

  lemma ShiftQuotient(w: int, g: int, n: int)
    requires g > 0
    ensures (w + n * g) / g == w / g + n
  {
    var q := w / g;
    assert w == q * g + w % g;
    assert (q + n) * g == q * g + n * g && (q + n + 1) * g == q * g + n * g + g;
    Arithmetic.DivUnique(w + n * g, g, q + n);
  }

  /** The parity of the quotient by a smaller power of two does not see the flag. */
  lemma BelowFlag(w: nat, g: nat, k: nat, f: nat, v: bool)
    requires g > 0 && f == 2 * k * g && f > 0
    ensures SetFlag(w, f, v) >= 0 && SetFlag(w, f, v) / g % 2 == w / g % 2
  {
    FlagStep(w, f);
    var q := w / g;
    if Flag(w, f) != v {
      var n: int := if v then 2 * k else 0 - 2 * k;
      assert n * g == if v then f else 0 - f by { Arithmetic.MulNegate(2 * k, g); }
      ShiftQuotient(w, g, n);
      assert (q + n) % 2 == q % 2;
    }
  }

  /** Changing one flag of a word leaves the other flags and the frame alone. */
  lemma SetFlagOnly(w: nat, f: nat, v: bool, g: nat)
    requires IsFlag(f) && IsFlag(g)
    ensures SetFlag(w, f, v) >= 0 && Flag(SetFlag(w, f, v), g) == (if g == f then v else Flag(w, g))
    ensures Frame(SetFlag(w, f, v)) == Frame(w)
  {
    FlagStep(w, f);
    FrameKept(w, f, v);
    if f < g {
      HigherKept(w, f, v, g);
    } else if g < f {
      LowerKept(w, f, v, g);
    }
  }

  lemma FrameKept(w: nat, f: nat, v: bool)
    requires IsFlag(f)
    ensures SetFlag(w, f, v) >= 0 && Frame(SetFlag(w, f, v)) == Frame(w)
  {
    AboveFlag(w, f, v, if f == 1 then 2048 else if f == 2 then 1024 else if f == 4 then 512 else if f == 32 then 64
        else 32);
  }

  lemma HigherKept(w: nat, f: nat, v: bool, g: nat)
    requires IsFlag(f) && IsFlag(g) && f < g
    ensures SetFlag(w, f, v) >= 0 && Flag(SetFlag(w, f, v), g) == Flag(w, g)
  {
    AboveFlag(w, f, v, if f == 1 then g / 2 else if f == 2 then g / 4 else if f == 4 then g / 8 else 1);
  }

  lemma LowerKept(w: nat, f: nat, v: bool, g: nat)
    requires IsFlag(f) && IsFlag(g) && g < f
    ensures SetFlag(w, f, v) >= 0 && Flag(SetFlag(w, f, v), g) == Flag(w, g)
  {
    BelowFlag(w, g, if g == 1 then f / 2 else if g == 2 then f / 4 else if g == 4 then f / 8 else 1, f, v);
  }

  /** A fresh entry points to its frame, is present, usable by the user, neither accessed nor dirty. */
  lemma UserPteReads(frame: nat, writable: bool)
    ensures var w := UserPte(frame, writable);
            Frame(w) == frame && Flag(w, PTE_P) && Flag(w, PTE_U) && Flag(w, PTE_W) == writable && !Flag(w, PTE_A)
                && !Flag(w, PTE_D)
  {
  }

  lemma TablePdeReads(frame: nat)
    ensures Frame(TablePde(frame)) == frame && Flag(TablePde(frame), PTE_P) && TablePde(frame) != 0
  {
  }

  // ------------------------------------------------------------------ addresses

  /** `pd_no`. */
  function PdNo(va: nat): nat { va / (PGSIZE * ENTRIES) }

  /** `pt_no`. */
  function PtNo(va: nat): nat { va / PGSIZE % ENTRIES }

  /** Page number and indexes determine each other. */
  lemma Indexes(va: nat)
    ensures PdNo(va) == va / PGSIZE / ENTRIES && va / PGSIZE == PdNo(va) * ENTRIES + PtNo(va) && PtNo(va) < ENTRIES
  {
  }

  // --------------------------------------------------------------- the directory

  /** Entries below the kernel's are empty or point to tables, each to its own. */
  ghost predicate TablesOk(pd: seq<nat>, tables: map<nat, seq<nat>>) {
    && |pd| == ENTRIES
    && (forall i :: 0 <= i < USER_TABLES && pd[i] != 0 ==>
           Flag(pd[i], PTE_P) && Frame(pd[i]) in tables && |tables[Frame(pd[i])]| == ENTRIES)
    && (forall i, j :: 0 <= i < j < USER_TABLES && pd[i] != 0 && pd[j] != 0 ==> Frame(pd[i]) != Frame(pd[j]))
  }

  /** The entry for user page `v`: zero where there is no table. */
  ghost function EntryIn(pd: seq<nat>, tables: map<nat, seq<nat>>, v: nat): nat
    requires TablesOk(pd, tables) && v < USER_PAGES
  {
    if pd[v / ENTRIES] == 0 then 0 else tables[Frame(pd[v / ENTRIES])][v % ENTRIES]
  }

  function Poke(table: seq<nat>, i: nat, w: nat): (r: seq<nat>)
    requires i < |table|
  {
    table[i := w]
  }

  /** A new, empty table changes no entry. */
  lemma NewTable(pd: seq<nat>, tables: map<nat, seq<nat>>, i: nat, frame: nat)
    requires TablesOk(pd, tables) && i < USER_TABLES && pd[i] == 0 && frame !in tables
    ensures var pd', tables' := pd[i := TablePde(frame)], tables[frame := seq(ENTRIES, _ => 0)];
            TablesOk(pd', tables') && forall v :: 0 <= v < USER_PAGES ==>
                    EntryIn(pd', tables', v) == EntryIn(pd, tables, v)
  {
    hide Frame, Flag, TablePde;
    TablePdeReads(frame);
    var pd', tables' := pd[i := TablePde(frame)], tables[frame := seq(ENTRIES, _ => 0)];
    forall v | 0 <= v < USER_PAGES ensures EntryIn(pd', tables', v) == EntryIn(pd, tables, v) {
      var j := v / ENTRIES;
      assert j < USER_TABLES && 0 <= v % ENTRIES < ENTRIES;
    }
  }

  /** Writing one word of a table changes one entry. */
  lemma PutWord(pd: seq<nat>, tables: map<nat, seq<nat>>, v: nat, w: nat)
    requires TablesOk(pd, tables) && v < USER_PAGES && pd[v / ENTRIES] != 0
    ensures Frame(pd[v / ENTRIES]) in tables && |tables[Frame(pd[v / ENTRIES])]| == ENTRIES
    ensures var t := Frame(pd[v / ENTRIES]); var tables' := tables[t := Poke(tables[t], v % ENTRIES, w)];
            TablesOk(pd, tables') && forall u :: 0 <= u < USER_PAGES ==>
                    EntryIn(pd, tables', u) == if u == v then w else EntryIn(pd, tables, u)
  {
    var i := v / ENTRIES;
    assert i < USER_TABLES;
    var t := Frame(pd[i]);
    var tables' := tables[t := Poke(tables[t], v % ENTRIES, w)];
    forall u | 0 <= u < USER_PAGES ensures EntryIn(pd, tables', u) == if u == v then w else EntryIn(pd, tables, u) {
      var j := u / ENTRIES;
      assert j < USER_TABLES && u == j * ENTRIES + u % ENTRIES && v == i * ENTRIES + v % ENTRIES;
      if j != i && pd[j] != 0 { assert Frame(pd[j]) != t; }
    }
  }

  class Directory {
    var pd: seq<nat>
    var tables: map<nat, seq<nat>>      // page tables, by the frame they are in

    ghost predicate Valid()
      reads this
    {
      TablesOk(pd, tables)
    }

    ghost function Entry(v: nat): nat
      requires Valid() && v < USER_PAGES
      reads this
    {
      EntryIn(pd, tables, v)
    }

    /** `pagedir_create`: no user page is mapped. */
    constructor ()
      ensures Valid() && forall v :: 0 <= v < USER_PAGES ==> Entry(v) == 0
    {
      pd := seq(ENTRIES, _ => 0);
      tables := map[];
    }

    /** `lookup_page` without creating: where the entry is, if there is a table for it. */
    method LookupPage(va: nat) returns (slot: Option<(nat, nat)>)
      requires Valid() && va < PHYS_BASE
      ensures match slot
              case None => pd[PdNo(va)] == 0 && Entry(va / PGSIZE) == 0
              case Some((t, i)) =>
                && pd[PdNo(va)] != 0 && t == Frame(pd[PdNo(va)]) && i == PtNo(va)
                && t in tables && i < |tables[t]| && tables[t][i] == Entry(va / PGSIZE)
    {
      Indexes(va);
      assert PdNo(va) < USER_TABLES;
      var pde := pd[PdNo(va)];
      if pde == 0 { return None; }
      slot := Some((Frame(pde), PtNo(va)));
    }

    /** `lookup_page` creating a table if there is none; `page` is what the page allocator offers. */
    method CreateTable(va: nat, page: Option<nat>) returns (ok: bool)
      requires Valid() && va < PHYS_BASE && (page.Some? ==> page.value !in tables)
      modifies this
      ensures Valid() && ok == (old(pd)[PdNo(va)] != 0 || page.Some?) && (ok ==> pd[PdNo(va)] != 0)
      ensures forall v :: 0 <= v < USER_PAGES ==> Entry(v) == old(Entry(v))
    {
      Indexes(va);
      assert PdNo(va) < USER_TABLES;
      if pd[PdNo(va)] == 0 {
        if page.None? { return false; }
        NewTable(pd, tables, PdNo(va), page.value);
        TablePdeReads(page.value);
        tables := tables[page.value := seq(ENTRIES, _ => 0)];
        pd := pd[PdNo(va) := TablePde(page.value)];
      }
      ok := true;
    }

    /** Writes the entry of an address that has one. */
    method PutEntry(va: nat, w: nat)
      requires Valid() && va < PHYS_BASE && pd[PdNo(va)] != 0
      modifies this`tables
      ensures Valid() && forall v :: 0 <= v < USER_PAGES ==> Entry(v) == if v == va / PGSIZE then w else old(Entry(v))
    {
      Indexes(va);
      PutWord(pd, tables, va / PGSIZE, w);
      var t := Frame(pd[PdNo(va)]);
      tables := tables[t := Poke(tables[t], PtNo(va), w)];
    }

    /** `pagedir_set_page`: fails only if a table is missing and there is no page for it, and then changes nothing. */
    method SetPage(upage: nat, frame: nat, writable: bool, page: Option<nat>) returns (ok: bool)
      requires Valid() && upage < PHYS_BASE && upage % PGSIZE == 0 && (page.Some? ==> page.value !in tables)
      requires !Flag(Entry(upage / PGSIZE), PTE_P)
      modifies this
      ensures Valid() && ok == (old(pd)[PdNo(upage)] != 0 || page.Some?)
      ensures forall v :: 0 <= v < USER_PAGES ==>
                  Entry(v) == if ok && v == upage / PGSIZE then UserPte(frame, writable) else old(Entry(v))
    {
      ok := CreateTable(upage, page);
      if ok { PutEntry(upage, UserPte(frame, writable)); }
    }

    /** `pagedir_get_page`: the kernel address of the byte, exactly if its page is present. */
    method GetPage(uaddr: nat) returns (r: Option<nat>)
      requires Valid() && uaddr < PHYS_BASE
      ensures var w := Entry(uaddr / PGSIZE);
              r == if Flag(w, PTE_P) then Some(PHYS_BASE + Frame(w) * PGSIZE + uaddr % PGSIZE) else None
    {
      var slot := LookupPage(uaddr);
      if slot.Some? && Flag(tables[slot.value.0][slot.value.1], PTE_P) {
        r := Some(PHYS_BASE + Frame(tables[slot.value.0][slot.value.1]) * PGSIZE + uaddr % PGSIZE);
      } else {
        r := None;
      }
    }

    /** Sets or clears a flag in the entry of an address, if it has a table. */
    method ChangeFlag(va: nat, f: nat, v: bool)
      requires Valid() && va < PHYS_BASE && IsFlag(f)
      modifies this`tables
      ensures Valid()
      ensures forall u :: 0 <= u < USER_PAGES ==>
                Entry(u) == if u == va / PGSIZE && old(pd)[PdNo(va)] != 0 then SetFlag(old(Entry(u)), f, v)
                    else old(Entry(u))
    {
      var slot := LookupPage(va);
      if slot.Some? {
        var w := tables[slot.value.0][slot.value.1];
        SetFlagOnly(w, f, v, f);
        PutEntry(va, SetFlag(w, f, v));
      }
    }

    /** `pagedir_clear_page`: the page is no longer present; the rest of its entry stays, and so do all others. */
    method ClearPage(upage: nat)
      requires Valid() && upage < PHYS_BASE && upage % PGSIZE == 0
      modifies this`tables
      ensures Valid() && !Flag(Entry(upage / PGSIZE), PTE_P)
      ensures Frame(Entry(upage / PGSIZE)) == old(Frame(Entry(upage / PGSIZE)))
      ensures forall f :: IsFlag(f) && f != PTE_P ==>
                  Flag(Entry(upage / PGSIZE), f) == old(Flag(Entry(upage / PGSIZE), f))
      ensures forall u :: 0 <= u < USER_PAGES && u != upage / PGSIZE ==> Entry(u) == old(Entry(u))
    {
      ghost var w := Entry(upage / PGSIZE);
      forall f | IsFlag(f)
        ensures Flag(SetFlag(w, PTE_P, false), f)
                == (if f == PTE_P then false else Flag(w, f)) { SetFlagOnly(w, PTE_P, false, f); }
      SetFlagOnly(w, PTE_P, false, PTE_P);
      var slot := LookupPage(upage);
      if slot.Some? && Flag(tables[slot.value.0][slot.value.1], PTE_P) {
        PutEntry(upage, SetFlag(tables[slot.value.0][slot.value.1], PTE_P, false));
      }
    }

    /** `pagedir_set_dirty` and `pagedir_set_accessed` on a page that has a table: one flag of one entry changes. */
    method SetUse(vpage: nat, f: nat, v: bool)
      requires Valid() && vpage < PHYS_BASE && (f == PTE_D || f == PTE_A)
      modifies this`tables
      ensures Valid() && Flag(Entry(vpage / PGSIZE), f) == (v && old(pd)[PdNo(vpage)] != 0)
      ensures Frame(Entry(vpage / PGSIZE)) == old(Frame(Entry(vpage / PGSIZE)))
      ensures forall g :: IsFlag(g) && g != f ==> Flag(Entry(vpage / PGSIZE), g) == old(Flag(Entry(vpage / PGSIZE), g))
      ensures forall u :: 0 <= u < USER_PAGES && u != vpage / PGSIZE ==> Entry(u) == old(Entry(u))
    {
      ghost var w := Entry(vpage / PGSIZE);
      Indexes(vpage);
      forall g | IsFlag(g)
        ensures Flag(SetFlag(w, f, v), g) == (if g == f then v else Flag(w, g)) { SetFlagOnly(w, f, v, g); }
      SetFlagOnly(w, f, v, f);
      ChangeFlag(vpage, f, v);
    }

    /** `install_page`: maps a page that is not present, and reads back as that frame. */
    method InstallPage(upage: nat, frame: nat, writable: bool, page: Option<nat>) returns (ok: bool)
      requires Valid() && upage < PHYS_BASE && upage % PGSIZE == 0 && (page.Some? ==> page.value !in tables)
      modifies this
      ensures Valid() && ok == (!old(Flag(Entry(upage / PGSIZE), PTE_P)) && (old(pd)[PdNo(upage)] != 0 || page.Some?))
      ensures forall v :: 0 <= v < USER_PAGES ==>
                  Entry(v) == if ok && v == upage / PGSIZE then UserPte(frame, writable) else old(Entry(v))
    {
      var r := GetPage(upage);
      if r.Some? { return false; }
      ok := SetPage(upage, frame, writable, page);
    }
  }
}
