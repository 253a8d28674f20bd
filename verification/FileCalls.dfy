/** The calls of filesys/filesys.c and filesys/file.c, and what each of them keeps. */
module FileCalls {
  import opened Base
  import opened Disk
  import opened DiskFormat
  import opened Bits
  import opened FileSys

  /** Sizes a caller may ask for: rounding up to sectors stays within `off_t`. */
  const MAX_SIZE: nat := 0x7fff_ffff - 511

  // ----------------------------------------------------------- filesys_create

  /** The part of `filesys_create` after sector `s` has been allocated for the inode. */
  function CreateAt(fs: Fs, r: nat, s: nat, name: Name, length: nat, o: Outcomes): (res: (Fs, bool))
    requires s < |fs.disk| && r < |fs.disk|
  {
    var (f2, created) := InodeCreate(fs, s, length, o.Inode());
    var (d, added) := if created then DirAdd(f2.disk, r, name, s, o) else (f2.disk, false);
    if added then (f2.(disk := d), true)
    else (f2.(used := if s != 0 then SetRange(f2.used, s, 1, false) else f2.used), false)
  }

  /** `filesys_create`. */
  function Create(fs: Fs, name: Name, length: nat, o: Outcomes): (res: (Fs, bool))
    requires RootOk(fs.disk) && |fs.used| == |fs.disk|
  {
    if !o.dir then (fs, false)
    else
      var f0 := InodeOpen(fs, ROOT_DIR_SECTOR, true).0;
      var (f3, ok) := match if o.mark then Scan(f0.used, 0, 1, false) else None
        case None => (f0, false)
        case Some(s) => CreateAt(f0.(used := SetRange(f0.used, s, 1, true)), RootData(fs.disk), s, name, length, o);
      (InodeClose(f3, ROOT_DIR_SECTOR), ok)
  }

  /** There is memory, and space for the inode and its data. */
  predicate Reaches(fs: Fs, length: nat, o: Outcomes) {
    o.dir && o.mark && o.Inode() &&
    match Scan(fs.used, 0, 1, false)
    case None => false
    case Some(s) => Scan(SetRange(fs.used, s, 1, true), 0, Sectors(length), false).Some?
  }

  /** The entry `dir_add` writes takes the place of one in use, as its search was cut short there. */
  predicate Overwrites(es: seq<Entry>, o: Outcomes) {
    StopAt(es, o.scan) < |es| && es[StopAt(es, o.scan)].inUse
  }

  /** The file that loses its name that way. */
  ghost function Lost(es: seq<Entry>, o: Outcomes): set<nat> {
    if Overwrites(es, o) then {es[StopAt(es, o.scan)].sector} else {}
  }

  /** The name is that of another entry too, which the lookup did not get to see, or an open file loses its name. */
  predicate Spoils(es: seq<Entry>, open: seq<OpenInode>, name: Name, o: Outcomes) {
    Adds(es, name, o) && var i := StopAt(es, o.scan);
    || (exists k :: 0 <= k < |es| && k != i && es[k].inUse && es[k].name == name)
    || (es[i].inUse && IsOpen(open, es[i].sector))
  }

  /** The root directory's data is one sector that belongs to no other live file. */
  lemma RootSector(fs: Fs, pins: multiset<nat>)
    requires InvWith(fs, pins)
    ensures var r := RootData(fs.disk);
            r != ROOT_DIR_SECTOR && r < |fs.used| && fs.used[r] && r !in Live(Slots(fs.disk), fs.open)
  {
    hide Slots, DirOk, OpenOk, CopyOk, RemovedOk, NamedSet, OpenSet;
    var r := RootData(fs.disk);
    assert Owns(fs.disk, ROOT_DIR_SECTOR, r);
    assert r in Live(Slots(fs.disk), fs.open) ==> Owns(fs.disk, r, r);
  }

  lemma LiveIsUsed(fs: Fs, pins: multiset<nat>, s: nat)
    requires InvWith(fs, pins) && s in Live(Slots(fs.disk), fs.open)
    ensures s < |fs.used| == |fs.disk| && fs.used[s]
  {
    assert Owns(fs.disk, s, s);
  }

  /** Copies of inodes and the directory stay right if no live sector changes. */
  lemma DiskFrame(fs: Fs, fs': Fs, pins: multiset<nat>)
    requires InvWith(fs, pins) && fs'.open == fs.open && fs'.files == fs.files && |fs'.disk| == |fs.disk|
    requires |fs'.used| == |fs.used|
    requires forall q :: 0 <= q < |fs.used| && |fs.used| == |fs.disk| && fs.used[q] ==>
                 fs'.disk[q] == fs.disk[q] && fs'.used[q]
    ensures InvWith(fs', pins) && Slots(fs'.disk) == Slots(fs.disk) && RootData(fs'.disk) == RootData(fs.disk)
  {
    hide DirOk, OpenOk, NamedSet, OpenSet, Entries;
    RootSector(fs, pins);
    var live := Live(Slots(fs.disk), fs.open);
    forall s | s in live ensures s < |fs.disk| && fs'.disk[s] == fs.disk[s] { LiveIsUsed(fs, pins, s); }
    assert ROOT_DIR_SECTOR in live;
    SlotsFrame(fs.disk, fs'.disk);
    SpaceFrame(fs.used, fs'.used, fs.disk, fs'.disk, live);
    CopyFrame(fs.open, Slots(fs.disk), fs.disk, fs'.disk);
  }

  lemma CopyFrame(open: seq<OpenInode>, es: seq<Entry>, d: Image, d': Image)
    requires CopyOk(open, d) && |d'| == |d| && forall s :: s in Live(es, open) ==> s < |d| && d'[s] == d[s]
    ensures CopyOk(open, d')
  {
    forall j | 0 <= j < |open| ensures open[j].sector < |d'| && open[j].node == NodeAt(d', open[j].sector) {
      InOpenSet(open, j);
    }
  }

  /** A file that has its sectors but no name yet. */
  ghost predicate Detached(fs: Fs, s: nat)
    requires RootOk(fs.disk)
  {
    var live := Live(Slots(fs.disk), fs.open);
    s !in live && s < |fs.disk| && SpaceOk(fs.used, fs.disk, live + {s})
  }

  /** The sectors marked used grow by those of file `s`, and no live inode changes. */
  ghost predicate Grows(f0: Fs, f2: Fs, s: nat)
    requires RootOk(f0.disk) && RootOk(f2.disk)
  {
    && |f2.disk| == |f0.disk| == |f0.used| == |f2.used| && s < |f2.disk| && Slots(f2.disk) == Slots(f0.disk)
    && f2.open == f0.open
    && (forall q :: 0 <= q < |f0.used| ==>
           (f2.used[q] <==> f0.used[q] || Owns(f2.disk, s, q)) && !(f0.used[q] && Owns(f2.disk, s, q)))
    && (forall t :: t in Live(Slots(f0.disk), f0.open) ==> t < |f0.disk| && NodeAt(f2.disk, t) == NodeAt(f0.disk, t))
  }

  /** `inode_create` on a free sector: nothing live changes, and the new file's sectors are its own. */
  lemma InodeCreateKeeps(f0: Fs, pins: multiset<nat>, s: nat, length: nat)
    requires InvWith(f0, pins) && s < |f0.disk| && |f0.used| == |f0.disk| && !f0.used[s] && length <= MAX_SIZE
    requires InodeCreate(f0.(used := SetRange(f0.used, s, 1, true)), s, length, true).1
    ensures var f2 := InodeCreate(f0.(used := SetRange(f0.used, s, 1, true)), s, length, true).0;
            && InvWith(f2, pins) && Slots(f2.disk) == Slots(f0.disk) && RootData(f2.disk) == RootData(f0.disk)
            && Detached(f2, s) && NodeAt(f2.disk, s).length == length
            && Grows(f0, f2, s)
            && Contents(f2.disk, NodeAt(f2.disk, s)) == Zeros(length)
  {
    hide Slots, DirOk, OpenOk, CopyOk, RemovedOk, NamedSet, OpenSet, NodeSector, NodeOf;
    var f1 := f0.(used := SetRange(f0.used, s, 1, true));
    var f2 := InodeCreate(f1, s, length, true).0;
    var start := Scan(f1.used, 0, Sectors(length), false).value;
    assert !(start <= s < start + Sectors(length)) by { assert f1.used[s]; }
    NodeRoundTrip(Node(start, length));
    assert NodeAt(f2.disk, s) == Node(start, length);
    DiskFrame(f0, f2, pins);
    var live := Live(Slots(f0.disk), f0.open);
    forall t | t in live ensures t < |f0.disk| && NodeAt(f2.disk, t) == NodeAt(f0.disk, t) { LiveIsUsed(f0, pins, t); }
    SpaceAdd(f0.used, f2.used, f0.disk, f2.disk, live, s);
    ZeroContents(f2.disk, Node(start, length));
  }

  lemma ZeroContents(d: Image, node: Node)
    requires OnDisk(d, node)
    requires forall q :: node.start <= q < node.start + Sectors(node.length) ==> d[q] == Zeros(SECTOR_SIZE)
    ensures Contents(d, node) == Zeros(node.length)
  {
    forall i | 0 <= i < node.length ensures Contents(d, node)[i] == Zeros(node.length)[i] {
      ByteToSector(d, node, i);
    }
  }

  // The name.

  lemma PutNamedSet(es: seq<Entry>, i: nat, e: Entry)
    requires i < |es|
    ensures NamedSet(es[i := e]) <= NamedSet(es) + (if e.inUse then {e.sector} else {})
    ensures !es[i].inUse && e.inUse ==> NamedSet(es[i := e]) == NamedSet(es) + {e.sector}
    ensures DirOk(es) && es[i].inUse && !e.inUse ==> NamedSet(es[i := e]) == NamedSet(es) - {es[i].sector}
    ensures DirOk(es) && es[i].inUse && e.inUse && e.sector !in NamedSet(es) ==>
                NamedSet(es[i := e]) == NamedSet(es) - {es[i].sector} + {e.sector}
  {
    var es' := es[i := e];
    if e.inUse { assert es'[i].inUse && es'[i].sector in NamedSet(es'); }
    if !es[i].inUse && e.inUse {
      assert es'[i].inUse;
      forall t | t in NamedSet(es) ensures t in NamedSet(es') {
        var k :| 0 <= k < |es| && es[k].inUse && es[k].sector == t;
        assert es'[k].inUse && es'[k].sector == t;
      }
    }
    if DirOk(es) && es[i].inUse {
      forall t | t in NamedSet(es) && t != es[i].sector ensures t in NamedSet(es') {
        var k :| 0 <= k < |es| && es[k].inUse && es[k].sector == t;
        assert es'[k].inUse && es'[k].sector == t;
      }
      forall k | 0 <= k < |es| && k != i && es[k].inUse ensures es[k].sector != es[i].sector {
        assert if k < i then es[k].sector != es[i].sector else es[i].sector != es[k].sector;
      }
      assert es[i].sector in NamedSet(es);
    }
  }

  /** Everything but the directory's entries stays; the live inodes are among those that were there or detached. */
  lemma PutSlotKeeps(fs: Fs, pins: multiset<nat>, i: nat, b: seq<byte>, live: set<nat>)
    requires InvWith(fs, pins) && i < DIR_ENTRIES && |b| == ENTRY_SIZE
    requires Live(Slots(fs.disk), fs.open) <= live && SpaceOk(fs.used, fs.disk, live)
    ensures var d := PutSlot(fs.disk, RootData(fs.disk), i, b);
            && RootOk(d) && RootData(d) == RootData(fs.disk) && Slots(d) == Slots(fs.disk)[i := EntryOf(b)]
            && CopyOk(fs.open, d) && SpaceOk(fs.used, d, live)
            && (forall t :: t in live ==> t < |d| && NodeAt(d, t) == NodeAt(fs.disk, t))
  {
    hide Slots, DirOk, OpenOk, CopyOk, RemovedOk, NamedSet, OpenSet, SpaceOk, EntryOf;
    RootSector(fs, pins);
    PutSlotWrites(fs.disk, i, b);
    var d := PutSlot(fs.disk, RootData(fs.disk), i, b);
    forall t | t in live ensures t < |d| && d[t] == fs.disk[t] {
      NotRootData(fs.used, fs.disk, live, t);
    }
    SpaceFrame(fs.used, fs.used, fs.disk, d, live);
    CopyFrame(fs.open, Slots(fs.disk), fs.disk, d);
  }

  lemma NotRootData(used: seq<bool>, d: Image, live: set<nat>, t: nat)
    requires RootOk(d) && SpaceOk(used, d, live) && ROOT_DIR_SECTOR in live && t in live
    ensures t < |d| && t != RootData(d)
  {
    assert Owns(d, t, t) && Owns(d, ROOT_DIR_SECTOR, RootData(d));
  }

  /** A detached file gets a name nobody else has, in place of no name or of the name of a file that is not open. */
  lemma DirAddKeeps(fs: Fs, pins: multiset<nat>, name: Name, s: nat, o: Outcomes)
    requires InvWith(fs, pins) && Detached(fs, s) && 0 !in name
    requires Adds(Slots(fs.disk), name, o) && !Spoils(Slots(fs.disk), fs.open, name, o)
    ensures var d := DirAdd(fs.disk, RootData(fs.disk), name, s, o).0; var es := Slots(fs.disk);
            && InvWith(fs.(disk := d), pins) && Live(Slots(d), fs.open) == Live(es, fs.open) - Lost(es, o) + {s}
            && StopAt(es, o.scan) < DIR_ENTRIES && Slots(d) == es[StopAt(es, o.scan) := Entry(s, name, true)]
            && (forall t :: t in Live(es, fs.open) + {s} ==> t < |d| && NodeAt(d, t) == NodeAt(fs.disk, t))
  {
    hide DirOk, OpenOk, CopyOk, RemovedOk, NamedSet, OpenSet, Entries, SpaceOk, EntryOf, AddedEntry, PutSlot, LastRead,
         StopAt, IsOpen;
    var r := RootData(fs.disk);
    var es := Slots(fs.disk);
    var i := StopAt(es, o.scan);
    var b := AddedEntry(LastRead(fs.disk, r, o), name, s);
    AddedEntryReads(LastRead(fs.disk, r, o), name, s);
    PutSlotKeeps(fs, pins, i, b, Live(es, fs.open) + {s});
    NamedLive(es, fs.open, o, s, name);
    NamedKeepsRemoved(fs.open, es, i, s, name);
    AddedDirOk(es, i, s, name);
    var d := PutSlot(fs.disk, r, i, b);
    SpaceSub(fs.used, d, Live(es, fs.open) + {s}, Live(Slots(d), fs.open));
  }

  /** The live inodes once the entry is written. */
  lemma NamedLive(es: seq<Entry>, open: seq<OpenInode>, o: Outcomes, s: nat, name: Name)
    requires DirOk(es) && s !in Live(es, open) && StopAt(es, o.scan) < |es|
    requires Overwrites(es, o) ==> !IsOpen(open, es[StopAt(es, o.scan)].sector)
    ensures Live(es[StopAt(es, o.scan) := Entry(s, name, true)], open) == Live(es, open) - Lost(es, o) + {s}
  {
    hide NamedSet, OpenSet, StopAt, IsOpen;
    var i := StopAt(es, o.scan);
    PutNamedSet(es, i, Entry(s, name, true));
    OpenMember(open, es[i].sector);
  }

  lemma NamedKeepsRemoved(open: seq<OpenInode>, es: seq<Entry>, i: nat, s: nat, name: Name)
    requires DirOk(es) && RemovedOk(open, es) && i < |es| && s !in OpenSet(open) && s !in NamedSet(es)
    requires es[i].inUse ==> es[i].sector !in OpenSet(open)
    ensures RemovedOk(open, es[i := Entry(s, name, true)])
  {
    hide NamedSet, OpenSet, DirOk;
    PutNamedSet(es, i, Entry(s, name, true));
    forall j | 0 <= j < |open| ensures open[j].sector in OpenSet(open) { InOpenSet(open, j); }
  }

  lemma AddedDirOk(es: seq<Entry>, i: nat, s: nat, name: Name)
    requires DirOk(es) && i < |es| && s !in NamedSet(es) && s >= 2 && name != []
    requires forall k :: 0 <= k < |es| && k != i && es[k].inUse ==> es[k].name != name
    ensures DirOk(es[i := Entry(s, name, true)])
  {
    assert forall k :: 0 <= k < |es| && es[k].inUse ==> es[k].sector in NamedSet(es);
  }

  // ------------------------------------------------- a directory scan cut short

  /** An open inode that has lost its name without being marked removed. */
  predicate Astray(x: OpenInode, named: set<nat>) { !x.removed && x.sector >= 2 && x.sector !in named }

  /** Two entries of one name, or an inode that nobody will free. */
  ghost predicate Broken(fs: Fs) {
    RootOk(fs.disk) &&
    (!DirOk(Slots(fs.disk)) || exists j :: 0 <= j < |fs.open| && Astray(fs.open[j], NamedSet(Slots(fs.disk))))
  }

  lemma BrokenIsNoInv(fs: Fs, pins: multiset<nat>)
    requires Broken(fs)
    ensures !InvWith(fs, pins)
  {
  }

  lemma CloseKeepsBroken(fs: Fs, s: nat)
    requires Broken(fs) && s < 2
    ensures Broken(InodeClose(fs, s))
  {
    hide NamedSet, DirOk, Slots;
    var fs' := InodeClose(fs, s);
    if DirOk(Slots(fs.disk)) {
      var j :| 0 <= j < |fs.open| && Astray(fs.open[j], NamedSet(Slots(fs.disk)));
      var f := FindOpen(fs.open, s, 0);
      if f.Some? && fs.open[f.value].cnt <= 1 && f.value < j {
        assert fs'.open[j - 1] == fs.open[j];
      } else {
        assert fs'.open[j] == fs.open[j];
      }
    }
  }

  /** A name the lookup missed, or an open file under the entry that is written over, breaks the invariant. */
  lemma DirAddSpoils(fs: Fs, pins: multiset<nat>, name: Name, s: nat, o: Outcomes)
    requires InvWith(fs, pins) && Detached(fs, s) && 0 !in name && Spoils(Slots(fs.disk), fs.open, name, o)
    ensures Broken(fs.(disk := DirAdd(fs.disk, RootData(fs.disk), name, s, o).0))
  {
    hide DirOk, OpenOk, CopyOk, RemovedOk, NamedSet, OpenSet, Entries, SpaceOk, EntryOf, AddedEntry, PutSlot, LastRead,
         StopAt, IsOpen;
    var r := RootData(fs.disk);
    var es := Slots(fs.disk);
    var i := StopAt(es, o.scan);
    var b := AddedEntry(LastRead(fs.disk, r, o), name, s);
    AddedEntryReads(LastRead(fs.disk, r, o), name, s);
    PutSlotKeeps(fs, pins, i, b, Live(es, fs.open) + {s});
    if exists k :: 0 <= k < |es| && k != i && es[k].inUse && es[k].name == name {
      TwoOfName(es, i, s, name);
    } else {
      LosesOpen(es, fs.open, i, s, name);
    }
  }

  lemma TwoOfName(es: seq<Entry>, i: nat, s: nat, name: Name)
    requires i < |es| && exists k :: 0 <= k < |es| && k != i && es[k].inUse && es[k].name == name
    ensures !DirOk(es[i := Entry(s, name, true)])
  {
    var k :| 0 <= k < |es| && k != i && es[k].inUse && es[k].name == name;
    var es' := es[i := Entry(s, name, true)];
    assert es'[k] == es[k] && es'[i].inUse;
  }

  lemma LosesOpen(es: seq<Entry>, open: seq<OpenInode>, i: nat, s: nat, name: Name)
    requires DirOk(es) && RemovedOk(open, es) && i < |es| && es[i].inUse && IsOpen(open, es[i].sector)
    requires s !in NamedSet(es)
    ensures exists j :: 0 <= j < |open| && Astray(open[j], NamedSet(es[i := Entry(s, name, true)]))
  {
    hide NamedSet;
    PutNamedSet(es, i, Entry(s, name, true));
    var j := FindOpen(open, es[i].sector, 0).value;
    assert es[i].sector in NamedSet(es) by { InNamedSet(es, i); }
    assert Astray(open[j], NamedSet(es[i := Entry(s, name, true)]));
  }

  lemma InNamedSet(es: seq<Entry>, i: nat)
    requires i < |es| && es[i].inUse
    ensures es[i].sector in NamedSet(es)
  {
  }

  // -------------------------------------------------------------- accounting

  ghost predicate Owned(d: Image, live: set<nat>, q: nat) {
    exists s :: s in live && s < |d| && Owns(d, s, q)
  }

  /** Sectors marked used that belong to no live file. */
  ghost predicate IsOrphan(fs: Fs, q: nat)
    requires RootOk(fs.disk)
  {
    q < |fs.used| && fs.used[q] && !Owned(fs.disk, Live(Slots(fs.disk), fs.open), q)
  }

  ghost predicate SameOrphans(fs: Fs, fs': Fs)
    requires RootOk(fs.disk) && RootOk(fs'.disk)
  {
    forall q: nat :: IsOrphan(fs', q) <==> IsOrphan(fs, q)
  }

  /** Releasing the inode sector of a file that got no name leaves its data behind. */
  lemma UndoCreate(fs: Fs, pins: multiset<nat>, s: nat)
    requires InvWith(fs, pins) && Detached(fs, s)
    ensures InvWith(fs.(used := SetRange(fs.used, s, 1, false)), pins)
  {
    hide Slots, DirOk, OpenOk, CopyOk, RemovedOk, NamedSet, OpenSet;
    var live := Live(Slots(fs.disk), fs.open);
    var used' := SetRange(fs.used, s, 1, false);
    assert Owns(fs.disk, s, s);
    forall t, q: nat | t in live && Owns(fs.disk, t, q) ensures q < |used'| && used'[q] {
      assert t in live + {s} && q < |fs.used| && fs.used[q];
    }
    SpaceFrame(fs.used, used', fs.disk, fs.disk, live);
  }

  lemma OwnedFrame(d: Image, d': Image, live: set<nat>, q: nat)
    requires |d'| == |d| && forall t :: t in live ==> t < |d| && NodeAt(d', t) == NodeAt(d, t)
    ensures Owned(d', live, q) <==> Owned(d, live, q)
  {
    if Owned(d, live, q) {
      var t :| t in live && t < |d| && Owns(d, t, q);
      assert Owns(d', t, q);
    }
    if Owned(d', live, q) {
      var t :| t in live && t < |d| && Owns(d', t, q);
      assert Owns(d, t, q);
    }
  }

  lemma OwnedAdd(d: Image, live: set<nat>, s: nat, q: nat)
    requires s < |d|
    ensures Owned(d, live + {s}, q) <==> Owned(d, live, q) || Owns(d, s, q)
  {
    if Owned(d, live, q) {
      var t :| t in live && t < |d| && Owns(d, t, q);
      assert t in live + {s};
    }
    if Owns(d, s, q) { assert s in live + {s}; }
  }

  lemma OwnedIsUsed(used: seq<bool>, d: Image, live: set<nat>, q: nat)
    requires SpaceOk(used, d, live) && Owned(d, live, q)
    ensures q < |used| && used[q]
  {
  }

  /** The part of the new file's data that stays marked if the file gets no name. */
  predicate DataOf(node: Node, q: nat) { node.start <= q < node.start + Sectors(node.length) }

  /** `inode_create` succeeded but `dir_add` did not. */
  predicate LosesData(fs: Fs, r: nat, s: nat, name: Name, length: nat, o: Outcomes)
    requires s < |fs.disk| && r < |fs.disk|
  {
    var (f2, created) := InodeCreate(fs, s, length, o.Inode());
    created && !DirAdd(f2.disk, r, name, s, o).1
  }

  /** What `filesys_create` did, for an inode in sector `s` named in entry `i`. */
  ghost predicate Created(fs: Fs, fs': Fs, name: Name, length: nat, i: nat, s: nat)
    requires RootOk(fs.disk) && RootOk(fs'.disk)
  {
    && s !in Live(Slots(fs.disk), fs.open) && s < |fs'.disk| && i < DIR_ENTRIES
    && Slots(fs'.disk) == Slots(fs.disk)[i := Entry(s, name, true)]
    && OnDisk(fs'.disk, NodeAt(fs'.disk, s)) && Contents(fs'.disk, NodeAt(fs'.disk, s)) == Zeros(length)
  }

  /** Sector `q` belongs to a file that loses its name to the new one. */
  ghost predicate LostSector(fs: Fs, o: Outcomes, q: nat)
    requires RootOk(fs.disk)
  {
    exists t :: t in Lost(Slots(fs.disk), o) && t < |fs.disk| && Owns(fs.disk, t, q)
  }

  /** No sector of a live file changes but the directory's data. */
  ghost predicate KeepsUsed(fs: Fs, fs': Fs)
    requires RootOk(fs.disk)
  {
    |fs'.disk| == |fs.disk| &&
    forall q :: 0 <= q < |fs.disk| && q < |fs.used| && fs.used[q] && q != RootData(fs.disk) ==>
      fs'.disk[q] == fs.disk[q]
  }

  /** The call gets as far as writing the name. */
  lemma AddsWhenCreated(f0: Fs, pins: multiset<nat>, s: nat, name: Name, length: nat, o: Outcomes)
    requires InvWith(f0, pins) && s < |f0.disk| && |f0.used| == |f0.disk| && !f0.used[s] && length <= MAX_SIZE
    ensures var f1 := f0.(used := SetRange(f0.used, s, 1, true));
            CreateAt(f1, RootData(f0.disk), s, name, length, o).1
            <==> o.Inode() && Scan(f1.used, 0, Sectors(length), false).Some? && Adds(Slots(f0.disk), name, o)
  {
    hide DirOk, OpenOk, CopyOk, RemovedOk, NamedSet, OpenSet, SpaceOk, Entries, NodeOf, NodeSector, Contents, Zeros,
         Adds;
    var f1 := f0.(used := SetRange(f0.used, s, 1, true));
    if o.Inode() && Scan(f1.used, 0, Sectors(length), false).Some? {
      InodeCreateKeeps(f0, pins, s, length);
    }
  }

  lemma CreateSucceeds(f0: Fs, pins: multiset<nat>, s: nat, name: Name, length: nat, o: Outcomes)
    requires InvWith(f0, pins) && s < |f0.disk| && |f0.used| == |f0.disk| && !f0.used[s] && length <= MAX_SIZE
    requires 0 !in name
    requires CreateAt(f0.(used := SetRange(f0.used, s, 1, true)), RootData(f0.disk), s, name, length, o).1
    requires !Spoils(Slots(f0.disk), f0.open, name, o)
    ensures var f3 := CreateAt(f0.(used := SetRange(f0.used, s, 1, true)), RootData(f0.disk), s, name, length, o).0;
            && InvWith(f3, pins) && f3.open == f0.open && f3.files == f0.files
            && Created(f0, f3, name, length, StopAt(Slots(f0.disk), o.scan), s) && KeepsUsed(f0, f3)
            && forall q: nat :: IsOrphan(f3, q) <==> IsOrphan(f0, q) || LostSector(f0, o, q)
  {
    hide DirOk, OpenOk, CopyOk, RemovedOk, NamedSet, OpenSet, SpaceOk, DirAdd, Slots, NodeOf, NodeSector, Contents,
         Zeros, Spoils, Adds, Lost, IsOrphan, LostSector;
    var f1 := f0.(used := SetRange(f0.used, s, 1, true));
    AddsWhenCreated(f0, pins, s, name, length, o);
    var f2 := InodeCreate(f1, s, length, true).0;
    InodeCreateKeeps(f0, pins, s, length);
    DirAddKeeps(f2, pins, name, s, o);
    var f3 := f2.(disk := DirAdd(f2.disk, RootData(f0.disk), name, s, o).0);
    DirAddWrites(f2, pins, name, s, o);
    SameContents(f2.disk, f3.disk, NodeAt(f2.disk, s), f2.used, Live(Slots(f2.disk), f2.open), s);
    forall q: nat ensures IsOrphan(f3, q) <==> IsOrphan(f0, q) || LostSector(f0, o, q) {
      CreateOrphans(f0, f2, f3, pins, o, s, q);
    }
  }

  lemma CreateSpoils(f0: Fs, pins: multiset<nat>, s: nat, name: Name, length: nat, o: Outcomes)
    requires InvWith(f0, pins) && s < |f0.disk| && |f0.used| == |f0.disk| && !f0.used[s] && length <= MAX_SIZE
    requires 0 !in name
    requires CreateAt(f0.(used := SetRange(f0.used, s, 1, true)), RootData(f0.disk), s, name, length, o).1
    requires Spoils(Slots(f0.disk), f0.open, name, o)
    ensures Broken(CreateAt(f0.(used := SetRange(f0.used, s, 1, true)), RootData(f0.disk), s, name, length, o).0)
  {
    hide DirOk, OpenOk, CopyOk, RemovedOk, NamedSet, OpenSet, SpaceOk, DirAdd, Slots, NodeOf, NodeSector, Contents,
         Zeros, Spoils, Adds, Broken;
    AddsWhenCreated(f0, pins, s, name, length, o);
    InodeCreateKeeps(f0, pins, s, length);
    DirAddSpoils(InodeCreate(f0.(used := SetRange(f0.used, s, 1, true)), s, length, true).0, pins, name, s, o);
  }

  /** `dir_add` writes to the directory's data sector only. */
  lemma DirAddWrites(fs: Fs, pins: multiset<nat>, name: Name, s: nat, o: Outcomes)
    requires InvWith(fs, pins)
    ensures var d := DirAdd(fs.disk, RootData(fs.disk), name, s, o).0;
            |d| == |fs.disk| && forall q :: 0 <= q < |d| && q != RootData(fs.disk) ==> d[q] == fs.disk[q]
  {
    hide Slots, DirOk, OpenOk, CopyOk, RemovedOk, NamedSet, OpenSet, SpaceOk, EntryOf, AddedEntry, Entries, StopAt,
         LastRead;
    RootSector(fs, pins);
    if DirAdd(fs.disk, RootData(fs.disk), name, s, o).1 {
      PutSlotWrites(fs.disk, StopAt(Entries(fs.disk, RootData(fs.disk)), o.scan),
          AddedEntry(LastRead(fs.disk, RootData(fs.disk), o), name, s));
    }
  }

  /** The contents of a file depend on its own sectors only. */
  lemma ContentsFrame(d: Image, d': Image, node: Node)
    requires OnDisk(d, node) && |d'| == |d|
    requires forall q :: node.start <= q < node.start + Sectors(node.length) ==> d'[q] == d[q]
    ensures Contents(d', node) == Contents(d, node)
  {
    forall i | 0 <= i < node.length ensures Contents(d', node)[i] == Contents(d, node)[i] { ByteToSector(d, node, i); }
  }

  lemma SameContents(d: Image, d': Image, node: Node, used: seq<bool>, live: set<nat>, s: nat)
    requires RootOk(d) && SpaceOk(used, d, live + {s}) && ROOT_DIR_SECTOR in live && s !in live && node == NodeAt(d, s)
    requires |d'| == |d| && forall q :: 0 <= q < |d| && q != RootData(d) ==> d'[q] == d[q]
    ensures OnDisk(d, node) && Contents(d', node) == Contents(d, node)
  {
    forall q | node.start <= q < node.start + Sectors(node.length) ensures q < |d| && d'[q] == d[q] {
      assert Owns(d, s, q) && Owns(d, ROOT_DIR_SECTOR, RootData(d)) && s in live + {s} && ROOT_DIR_SECTOR in live + {s};
    }
    ContentsFrame(d, d', node);
  }

  /** With its name the new file owns what it added; a file that loses its name leaves its sectors behind. */
  lemma CreateOrphans(f0: Fs, f2: Fs, f3: Fs, pins: multiset<nat>, o: Outcomes, s: nat, q: nat)
    requires InvWith(f0, pins) && RootOk(f2.disk) && RootOk(f3.disk) && Grows(f0, f2, s)
    requires f3.open == f2.open && f3.used == f2.used && |f3.disk| == |f2.disk|
    requires var live := Live(Slots(f0.disk), f0.open);
             && Live(Slots(f3.disk), f3.open) == live - Lost(Slots(f0.disk), o) + {s}
             && forall t :: t in live + {s} ==> t < |f3.disk| && NodeAt(f3.disk, t) == NodeAt(f2.disk, t)
    ensures IsOrphan(f3, q) <==> IsOrphan(f0, q) || LostSector(f0, o, q)
  {
    hide Slots, NamedSet, OpenSet, NodeOf, Owns, DirOk, OpenOk, CopyOk, RemovedOk, SpaceOk;
    var live, lost := Live(Slots(f0.disk), f0.open), Lost(Slots(f0.disk), o);
    OwnedFrame(f0.disk, f2.disk, live - lost, q);
    OwnedFrame(f2.disk, f3.disk, live - lost + {s}, q);
    OwnedAdd(f2.disk, live - lost, s, q);
    LostIsLive(f0, o);
    OwnedLess(f0.used, f0.disk, live, lost, q);
  }

  lemma LostIsLive(fs: Fs, o: Outcomes)
    requires RootOk(fs.disk)
    ensures Lost(Slots(fs.disk), o) <= Live(Slots(fs.disk), fs.open)
  {
    hide Slots, StopAt;
    var es := Slots(fs.disk);
    if Overwrites(es, o) { InNamedSet(es, StopAt(es, o.scan)); }
  }

  /** Sectors have one owner. */
  lemma OwnedLess(used: seq<bool>, d: Image, live: set<nat>, lost: set<nat>, q: nat)
    requires SpaceOk(used, d, live) && lost <= live
    ensures Owned(d, live - lost, q) <==> Owned(d, live, q) && !Owned(d, lost, q)
    ensures Owned(d, live, q) ==> q < |used| && used[q]
    ensures Owned(d, lost, q) ==> Owned(d, live, q)
  {
    if Owned(d, live - lost, q) {
      var t :| t in live - lost && t < |d| && Owns(d, t, q);
      forall u | u in lost && u < |d| ensures !Owns(d, u, q) { assert u in live && t in live && u != t; }
    }
    if Owned(d, live, q) && !Owned(d, lost, q) {
      var t :| t in live && t < |d| && Owns(d, t, q);
      assert t in live - lost;
    }
    if Owned(d, lost, q) {
      var u :| u in lost && u < |d| && Owns(d, u, q);
      assert u in live;
    }
  }

  /** Without a name only the inode's sector is given back. */
  lemma LostOrphans(f0: Fs, f2: Fs, pins: multiset<nat>, s: nat, q: nat)
    requires RootOk(f0.disk) && RootOk(f2.disk) && Grows(f0, f2, s) && InvWith(f0, pins)
    requires !DataOf(NodeAt(f2.disk, s), s)
    ensures IsOrphan(f2.(used := SetRange(f2.used, s, 1, false)), q) <==>
                IsOrphan(f0, q) || (DataOf(NodeAt(f2.disk, s), q) && q < |f2.used|)
  {
    hide Slots, NamedSet, OpenSet, NodeOf, SpaceOk;
    var live := Live(Slots(f0.disk), f0.open);
    OwnedFrame(f0.disk, f2.disk, live, q);
    if Owned(f0.disk, live, q) { OwnedIsUsed(f0.used, f0.disk, live, q); }
  }

  lemma UndoMark(used: seq<bool>, s: nat)
    requires s < |used| && !used[s]
    ensures SetRange(SetRange(used, s, 1, true), s, 1, false) == used
  {
  }

  /** A failed `filesys_create` changes no live file; it loses data sectors exactly if the name could not be added. */
  lemma CreateFails(f0: Fs, pins: multiset<nat>, s: nat, name: Name, length: nat, o: Outcomes)
    requires InvWith(f0, pins) && s < |f0.disk| && |f0.used| == |f0.disk| && !f0.used[s] && length <= MAX_SIZE
    requires 0 !in name
    requires !CreateAt(f0.(used := SetRange(f0.used, s, 1, true)), RootData(f0.disk), s, name, length, o).1
    ensures var f1 := f0.(used := SetRange(f0.used, s, 1, true));
            var f3 := CreateAt(f1, RootData(f0.disk), s, name, length, o).0;
            && InvWith(f3, pins) && f3.open == f0.open && f3.files == f0.files && Slots(f3.disk) == Slots(f0.disk)
            && KeepsUsed(f0, f3)
            && forall q: nat :: IsOrphan(f3, q) <==>
                 IsOrphan(f0, q) || (LosesData(f1, RootData(f0.disk), s, name, length, o)
                     && DataOf(NodeAt(f3.disk, s), q) && q < |f0.used|)
  {
    hide DirOk, OpenOk, CopyOk, RemovedOk, NamedSet, OpenSet, SpaceOk, DirAdd, Slots, NodeOf, NodeSector, Contents,
         Zeros;
    var r := RootData(f0.disk);
    var f1 := f0.(used := SetRange(f0.used, s, 1, true));
    var (f2, created) := InodeCreate(f1, s, length, o.Inode());
    var f3 := CreateAt(f1, r, s, name, length, o).0;
    ZeroIsUsed(f0, pins);
    if created {
      InodeCreateKeeps(f0, pins, s, length);
      UndoCreate(f2, pins, s);
      DetachedData(f2, s);
      forall q: nat ensures IsOrphan(f3, q) <==> IsOrphan(f0, q) || (DataOf(NodeAt(f3.disk, s), q) && q < |f0.used|) {
        LostOrphans(f0, f2, pins, s, q);
      }
    } else {
      UndoMark(f0.used, s);
      assert f3 == f0;
    }
  }

  lemma ZeroIsUsed(fs: Fs, pins: multiset<nat>)
    requires InvWith(fs, pins)
    ensures 0 < |fs.used| && fs.used[0]
  {
    LiveIsUsed(fs, pins, FREE_MAP_SECTOR);
  }

  lemma DetachedData(fs: Fs, s: nat)
    requires RootOk(fs.disk) && Detached(fs, s)
    ensures !DataOf(NodeAt(fs.disk, s), s)
  {
    assert s in Live(Slots(fs.disk), fs.open) + {s};
  }

  // ------------------------------------------------------ opening the directory

  /** What opening and closing an inode leaves alone. */
  ghost predicate Quiet(fs: Fs, fs': Fs)
    requires RootOk(fs.disk)
  {
    fs'.disk == fs.disk && fs'.files == fs.files && SameOrphans(fs, fs')
  }

  lemma OpenIsQuiet(fs: Fs, pins: multiset<nat>, s: nat, ok: bool)
    requires InvWith(fs, pins) && s in Live(Slots(fs.disk), fs.open)
    ensures s < |fs.disk| && Quiet(fs, InodeOpen(fs, s, ok).0)
  {
    hide Slots, DirOk, OpenOk, CopyOk, RemovedOk, NamedSet, OpenSet, SpaceOk, Owns;
    InodeOpenKeeps(fs, s, ok, pins);
  }

  /**
   What `inode_close` does to the free map: it frees the sectors of a removed inode on its last close, and no others.
   */
  lemma CloseFrees(fs: Fs, pins: multiset<nat>, s: nat)
    requires InvWith(fs, pins) && pins[s] > 0
    ensures IsOpen(fs.open, s) && s < |fs.disk|
    ensures var fs' := InodeClose(fs, s); var x := fs.open[FindOpen(fs.open, s, 0).value];
            && |fs'.used| == |fs.used|
            && (forall q :: 0 <= q < |fs.used| ==>
                   (fs'.used[q] <==> fs.used[q] && !(x.cnt == 1 && x.removed && Owns(fs.disk, s, q))))
            && Live(Slots(fs.disk), fs'.open)
               == Live(Slots(fs.disk), fs.open) - (if x.cnt == 1 && x.removed then {s} else {})
  {
    hide Slots, DirOk, OpenOk, CopyOk, RemovedOk, NamedSet, OpenSet, SpaceOk;
    InodeCloseKeepsOpenOk(fs, s, pins);
    var j := FindOpen(fs.open, s, 0).value;
    CountAt(fs.open, j, fs.files, pins);
    RemovedIs(fs.open, j, Slots(fs.disk), fs.disk);
    InOpenSet(fs.open, j);
  }

  lemma CloseIsQuiet(fs: Fs, pins: multiset<nat>, s: nat)
    requires InvWith(fs, pins) && pins[s] > 0
    ensures Quiet(fs, InodeClose(fs, s))
  {
    hide Slots, DirOk, OpenOk, CopyOk, RemovedOk, NamedSet, OpenSet, InodeClose;
    CloseFrees(fs, pins, s);
    var fs' := InodeClose(fs, s);
    var x := fs.open[FindOpen(fs.open, s, 0).value];
    var live, live' := Live(Slots(fs.disk), fs.open), Live(Slots(fs.disk), fs'.open);
    if x.cnt == 1 && x.removed {
      assert s in live by { OpenIsLive(fs.disk, fs.open, s); }
      forall q: nat ensures IsOrphan(fs', q) <==> IsOrphan(fs, q) {
        OwnedAdd(fs.disk, live', s, q);
        assert live' + {s} == live;
        if Owned(fs.disk, live', q) && Owns(fs.disk, s, q) {
          var t :| t in live' && t < |fs.disk| && Owns(fs.disk, t, q);
          assert t in live && s in live;
        }
      }
    } else {
      assert fs'.used == fs.used && live' == live;
    }
  }

  lemma OpenIsLive(d: Image, open: seq<OpenInode>, s: nat)
    requires RootOk(d) && IsOpen(open, s)
    ensures s in Live(Slots(d), open)
  {
    OpenMember(open, s);
  }

  // ------------------------------------------------------------ whole creation

  /** The call gets to write the name, and that breaks the invariant. */
  predicate CreateBreaks(fs: Fs, name: Name, length: nat, o: Outcomes)
    requires RootOk(fs.disk)
  {
    Reaches(fs, length, o) && Spoils(Slots(fs.disk), fs.open, name, o)
  }

  /** There is memory, and space for the inode and its data, but `dir_add` does not write the name. */
  predicate CreateLoses(fs: Fs, name: Name, length: nat, o: Outcomes)
    requires RootOk(fs.disk)
  {
    Reaches(fs, length, o) && !Adds(Slots(fs.disk), name, o)
  }

  /** The root directory's being open does not matter to the files. */
  lemma SpoilsSame(fs: Fs, pins: multiset<nat>, name: Name, o: Outcomes)
    requires InvWith(fs, pins)
    ensures Spoils(Slots(fs.disk), InodeOpen(fs, ROOT_DIR_SECTOR, true).0.open, name, o) <==>
                Spoils(Slots(fs.disk), fs.open, name, o)
  {
    hide Slots, OpenOk, CopyOk, RemovedOk, NamedSet, OpenSet, SpaceOk, InodeOpen, StopAt;
    InodeOpenKeepsOpenOk(fs, ROOT_DIR_SECTOR, true, pins);
    var es := Slots(fs.disk);
    var i := StopAt(es, o.scan);
    if i < |es| {
      OpenMember(fs.open, es[i].sector);
      OpenMember(InodeOpen(fs, ROOT_DIR_SECTOR, true).0.open, es[i].sector);
    }
  }

  /** A call of `filesys_create` whose scans of the directory were not cut short badly keeps the invariant. */
  lemma CreateKeeps(fs: Fs, name: Name, length: nat, o: Outcomes)
    requires Inv(fs) && length <= MAX_SIZE && 0 !in name && !CreateBreaks(fs, name, length, o)
    ensures |fs.used| == |fs.disk|
    ensures var (fs', ok) := Create(fs, name, length, o);
            && Inv(fs') && fs'.files == fs.files && KeepsUsed(fs, fs')
            && (if ok then exists s :: Created(fs, fs', name, length, StopAt(Slots(fs.disk), o.scan), s)
               else Slots(fs'.disk) == Slots(fs.disk))
  {
    hide DirOk, OpenOk, CopyOk, RemovedOk, NamedSet, OpenSet, Slots, RootOk, InodeOpen, InodeClose, CreateAt, SpaceOk,
         Spoils, Adds, StopAt;
    var one := multiset{ROOT_DIR_SECTOR};
    var pins := multiset{FREE_MAP_SECTOR};
    SizesAgree(fs, pins);
    if o.dir {
      assert ROOT_DIR_SECTOR in Live(Slots(fs.disk), fs.open);
      InodeOpenKeeps(fs, ROOT_DIR_SECTOR, true, pins);
      var f0 := InodeOpen(fs, ROOT_DIR_SECTOR, true).0;
      var sc := if o.mark then Scan(f0.used, 0, 1, false) else None;
      var f3, ok := f0, false;
      if sc.Some? {
        var s := sc.value;
        assert !f0.used[s];
        SpoilsSame(fs, pins, name, o);
        var f1 := f0.(used := SetRange(f0.used, s, 1, true));
        f3, ok := CreateAt(f1, RootData(fs.disk), s, name, length, o).0,
            CreateAt(f1, RootData(fs.disk), s, name, length, o).1;
        InsideKeeps(f0, pins + one, s, name, length, o);
      }
      InodeCloseKeeps(f3, ROOT_DIR_SECTOR, pins + one);
      assert pins + one - one == pins;
      if ok { assert Created(fs, InodeClose(f3, ROOT_DIR_SECTOR), name, length, StopAt(Slots(fs.disk), o.scan),
          sc.value); }
    }
  }

  /** What happens between opening and closing the root directory. */
  lemma InsideKeeps(f0: Fs, pins: multiset<nat>, s: nat, name: Name, length: nat, o: Outcomes)
    requires InvWith(f0, pins) && s < |f0.disk| && |f0.used| == |f0.disk| && !f0.used[s] && length <= MAX_SIZE
    requires 0 !in name
    requires !(o.Inode() && Scan(SetRange(f0.used, s, 1, true), 0, Sectors(length), false).Some?
             && Spoils(Slots(f0.disk), f0.open, name, o))
    ensures var (f3, ok) := CreateAt(f0.(used := SetRange(f0.used, s, 1, true)), RootData(f0.disk), s, name, length, o);
            && InvWith(f3, pins) && f3.open == f0.open && f3.files == f0.files && KeepsUsed(f0, f3)
            && (if ok then Created(f0, f3, name, length, StopAt(Slots(f0.disk), o.scan), s)
               else Slots(f3.disk) == Slots(f0.disk))
  {
    hide InvWith, Created, KeepsUsed, Slots, CreateAt, Spoils, IsOrphan, LosesData, LostSector, StopAt;
    SizesAgree(f0, pins);
    AddsWhenCreated(f0, pins, s, name, length, o);
    if CreateAt(f0.(used := SetRange(f0.used, s, 1, true)), RootData(f0.disk), s, name, length, o).1 {
      CreateSucceeds(f0, pins, s, name, length, o);
    } else {
      CreateFails(f0, pins, s, name, length, o);
    }
  }

  /**
   `filesys_create` keeps the invariant if and only if it does not write a name that the lookup, cut short for
   want of memory, failed to see, or write over the entry of an open file where the search was cut short.
   */
  lemma CreateKeepsIff(fs: Fs, name: Name, length: nat, o: Outcomes)
    requires Inv(fs) && length <= MAX_SIZE && 0 !in name
    ensures |fs.used| == |fs.disk| && RootOk(fs.disk)
    ensures Inv(Create(fs, name, length, o).0) <==> !CreateBreaks(fs, name, length, o)
  {
    hide DirOk, OpenOk, CopyOk, RemovedOk, NamedSet, OpenSet, Slots, RootOk, InodeOpen, InodeClose, CreateAt, SpaceOk,
         Spoils, Broken;
    var one := multiset{ROOT_DIR_SECTOR};
    var pins := multiset{FREE_MAP_SECTOR};
    SizesAgree(fs, pins);
    if CreateBreaks(fs, name, length, o) {
      assert ROOT_DIR_SECTOR in Live(Slots(fs.disk), fs.open);
      InodeOpenKeeps(fs, ROOT_DIR_SECTOR, true, pins);
      var f0 := InodeOpen(fs, ROOT_DIR_SECTOR, true).0;
      var s := Scan(f0.used, 0, 1, false).value;
      assert !f0.used[s];
      SpoilsSame(fs, pins, name, o);
      AddsWhenCreated(f0, pins + one, s, name, length, o);
      SpoilsAdds(Slots(fs.disk), fs.open, name, o);
      CreateSpoils(f0, pins + one, s, name, length, o);
      var f3 := CreateAt(f0.(used := SetRange(f0.used, s, 1, true)), RootData(fs.disk), s, name, length, o).0;
      CloseKeepsBroken(f3, ROOT_DIR_SECTOR);
      BrokenIsNoInv(InodeClose(f3, ROOT_DIR_SECTOR), pins);
    } else {
      CreateKeeps(fs, name, length, o);
    }
  }

  lemma SpoilsAdds(es: seq<Entry>, open: seq<OpenInode>, name: Name, o: Outcomes)
    ensures Spoils(es, open, name, o) ==> Adds(es, name, o)
  {
  }

  /** With memory for the bounce buffer nothing is spoiled. */
  lemma MemorySpoilsNothing(es: seq<Entry>, open: seq<OpenInode>, name: Name, o: Outcomes)
    requires o.lookup >= |es| && o.scan >= |es|
    ensures !Spoils(es, open, name, o) && !Overwrites(es, o)
    ensures !Adds(es, name, o) <==>
                name == [] || |name| > NAME_MAX || Find(es, name, 0).Some? || FreeSlot(es, 0).None? || !o.write
  {
    SeenFinds(es, name, o.lookup);
    assert Seen(es, o.scan) == es;
  }

  /** No file loses its name to a new one if and only if the search for a free entry does not stop at one in use. */
  lemma CreateKeepsNamesIff(fs: Fs, name: Name, length: nat, o: Outcomes)
    requires Inv(fs) && length <= MAX_SIZE && 0 !in name && !CreateBreaks(fs, name, length, o)
    ensures |fs.used| == |fs.disk| && RootOk(fs.disk) && Inv(Create(fs, name, length, o).0)
    ensures var (fs', ok) := Create(fs, name, length, o); var es := Slots(fs.disk);
            (forall k :: 0 <= k < |es| && es[k].inUse ==> Slots(fs'.disk)[k] == es[k]) <==> !(ok && Overwrites(es, o))
  {
    hide DirOk, OpenOk, CopyOk, RemovedOk, NamedSet, OpenSet, Slots, RootOk, Create, SpaceOk, StopAt;
    SizesAgree(fs, multiset{FREE_MAP_SECTOR});
    CreateKeeps(fs, name, length, o);
    var (fs', ok) := Create(fs, name, length, o);
    var es := Slots(fs.disk);
    var i := StopAt(es, o.scan);
    if ok {
      var s :| Created(fs, fs', name, length, i, s);
      if es[i].inUse {
        InNamedSet(es, i);
        assert Slots(fs'.disk)[i] != es[i];
      }
    }
  }

  lemma LosesIff(f0: Fs, pins: multiset<nat>, s: nat, name: Name, length: nat, o: Outcomes)
    requires InvWith(f0, pins) && s < |f0.disk| && |f0.used| == |f0.disk| && !f0.used[s] && length <= MAX_SIZE
    ensures var f1 := f0.(used := SetRange(f0.used, s, 1, true));
            LosesData(f1, RootData(f0.disk), s, name, length, o)
            <==> o.Inode() && Scan(f1.used, 0, Sectors(length), false).Some? && !Adds(Slots(f0.disk), name, o)
  {
    hide DirOk, OpenOk, CopyOk, RemovedOk, NamedSet, OpenSet, SpaceOk, Entries, NodeOf, NodeSector, Contents, Zeros,
         Adds;
    var f1 := f0.(used := SetRange(f0.used, s, 1, true));
    if o.Inode() && Scan(f1.used, 0, Sectors(length), false).Some? {
      InodeCreateKeeps(f0, pins, s, length);
    }
  }

  /**
   A `filesys_create` call leaves the sectors that are marked but owned by no file as they were, unless it fails
   to name the file after allocating its data, which adds exactly that data, or takes the name of another file away,
   which adds exactly that file's sectors.
   */
  lemma CreateAccounts(fs: Fs, name: Name, length: nat, o: Outcomes, q: nat)
    requires Inv(fs) && length <= MAX_SIZE && 0 !in name && !CreateBreaks(fs, name, length, o)
    ensures |fs.used| == |fs.disk| && RootOk(fs.disk)
    ensures var (fs', ok) := Create(fs, name, length, o); var loses := CreateLoses(fs, name, length, o);
            && RootOk(fs'.disk) && |fs'.disk| == |fs.disk| && (ok <==> Reaches(fs, length, o) && !loses)
            && (IsOrphan(fs', q) <==>
                  || IsOrphan(fs, q)
                  || (loses && q < |fs.used| && DataOf(NodeAt(fs'.disk, Scan(fs.used, 0, 1, false).value), q))
                  || (ok && LostSector(fs, o, q)))
  {
    hide DirOk, OpenOk, CopyOk, RemovedOk, NamedSet, OpenSet, Slots, RootOk, InodeOpen, InodeClose, CreateAt, SpaceOk,
         IsOrphan, LosesData, Adds, Spoils, LostSector, StopAt;
    var one := multiset{ROOT_DIR_SECTOR};
    var pins := multiset{FREE_MAP_SECTOR};
    SizesAgree(fs, pins);
    if o.dir {
      assert ROOT_DIR_SECTOR in Live(Slots(fs.disk), fs.open);
      InodeOpenKeeps(fs, ROOT_DIR_SECTOR, true, pins);
      OpenIsQuiet(fs, pins, ROOT_DIR_SECTOR, true);
      var f0 := InodeOpen(fs, ROOT_DIR_SECTOR, true).0;
      var sc := if o.mark then Scan(f0.used, 0, 1, false) else None;
      if sc.Some? {
        var s := sc.value;
        assert !f0.used[s];
        SpoilsSame(fs, pins, name, o);
        AccountInside(f0, pins + one, s, name, length, o, q);
        InsideKeeps(f0, pins + one, s, name, length, o);
        LostSame(fs, f0, o, q);
        var f3 := CreateAt(f0.(used := SetRange(f0.used, s, 1, true)), RootData(fs.disk), s, name, length, o).0;
        CloseIsQuiet(f3, pins + one, ROOT_DIR_SECTOR);
      } else {
        CloseIsQuiet(f0, pins + one, ROOT_DIR_SECTOR);
      }
    }
  }

  lemma LostSame(fs: Fs, f0: Fs, o: Outcomes, q: nat)
    requires RootOk(fs.disk) && f0.disk == fs.disk
    ensures LostSector(f0, o, q) <==> LostSector(fs, o, q)
  {
  }

  lemma AccountInside(f0: Fs, pins: multiset<nat>, s: nat, name: Name, length: nat, o: Outcomes, q: nat)
    requires InvWith(f0, pins) && s < |f0.disk| && |f0.used| == |f0.disk| && !f0.used[s] && length <= MAX_SIZE
    requires 0 !in name
    requires !(o.Inode() && Scan(SetRange(f0.used, s, 1, true), 0, Sectors(length), false).Some?
             && Spoils(Slots(f0.disk), f0.open, name, o))
    ensures var room := o.Inode() && Scan(SetRange(f0.used, s, 1, true), 0, Sectors(length), false).Some?;
            var (f3, ok) := CreateAt(f0.(used := SetRange(f0.used, s, 1, true)), RootData(f0.disk), s, name, length, o);
            && RootOk(f3.disk) && |f3.disk| == |f0.disk| && (ok <==> room && Adds(Slots(f0.disk), name, o))
            && (IsOrphan(f3, q) <==>
                 || IsOrphan(f0, q)
                 || (room && !Adds(Slots(f0.disk), name, o) && DataOf(NodeAt(f3.disk, s), q) && q < |f0.used|)
                 || (ok && LostSector(f0, o, q)))
  {
    hide DirOk, OpenOk, CopyOk, RemovedOk, NamedSet, OpenSet, Slots, CreateAt, SpaceOk, IsOrphan, LosesData, Adds,
         Spoils, LostSector, StopAt, Created;
    LosesIff(f0, pins, s, name, length, o);
    AddsWhenCreated(f0, pins, s, name, length, o);
    var f1 := f0.(used := SetRange(f0.used, s, 1, true));
    var (f3, ok) := CreateAt(f1, RootData(f0.disk), s, name, length, o);
    if ok {
      CreateSucceeds(f0, pins, s, name, length, o);
    } else {
      CreateFails(f0, pins, s, name, length, o);
    }
  }

  lemma SizesAgree(fs: Fs, pins: multiset<nat>)
    requires InvWith(fs, pins)
    ensures |fs.used| == |fs.disk| && RootOk(fs.disk)
  {
  }
}
