/** Whole runs of file system calls: what stays true, and what a reader of a file sees. */
module FileRuns {
  import opened Base
  import opened Disk
  import opened DiskFormat
  import opened Bits
  import opened FileSys
  import opened FileCalls

  // ----------------------------------------------------------- filesys_remove

  predicate NamesOnDisk(d: Image)
    requires RootOk(d)
  {
    forall i :: 0 <= i < DIR_ENTRIES && Slots(d)[i].inUse ==> Slots(d)[i].sector < |d|
  }

  /** `inode_remove`. */
  function MarkRemoved(fs: Fs, s: nat): (r: Fs) {
    match FindOpen(fs.open, s, 0)
    case None => fs
    case Some(j) => fs.(open := fs.open[j := fs.open[j].(removed := true)])
  }

  /** The erased directory entry and the inode marked for removal. */
  function Unlink(fs: Fs, r: nat, i: nat, s: nat): (res: Fs)
    requires r < |fs.disk| && i < DIR_ENTRIES
  {
    MarkRemoved(fs.(disk := PutSlot(fs.disk, r, i, ErasedEntry(SlotBytes(fs.disk, r, i)))), s)
  }

  /** `filesys_remove`; `lookup` entries can be read, and `write` says whether the erased one can be written. */
  function Remove(fs: Fs, name: Name, dirOk: bool, fileOk: bool, lookup: nat, write: bool): (res: (Fs, bool))
    requires RootOk(fs.disk) && NamesOnDisk(fs.disk)
  {
    if !dirOk then (fs, false)
    else
      var f0 := InodeOpen(fs, ROOT_DIR_SECTOR, true).0;
      match Find(Seen(Slots(fs.disk), lookup), name, 0)
      case None => (InodeClose(f0, ROOT_DIR_SECTOR), false)
      case Some(i) =>
        var s := Slots(fs.disk)[i].sector;
        var (f1, ok) := InodeOpen(f0, s, fileOk);
        if !ok then (InodeClose(f1, ROOT_DIR_SECTOR), false)
        else if !write then (InodeClose(InodeClose(f1, s), ROOT_DIR_SECTOR), false)
        else (InodeClose(InodeClose(Unlink(f1, RootData(fs.disk), i, s), s), ROOT_DIR_SECTOR), true)
  }

  lemma InvNamesOnDisk(fs: Fs, pins: multiset<nat>)
    requires InvWith(fs, pins)
    ensures NamesOnDisk(fs.disk)
    ensures forall i :: 0 <= i < DIR_ENTRIES && Slots(fs.disk)[i].inUse ==>
                Slots(fs.disk)[i].sector in Live(Slots(fs.disk), fs.open)
  {
    hide Entries, OpenOk, CopyOk, RemovedOk, OpenSet;
    var es := Slots(fs.disk);
    forall i | 0 <= i < DIR_ENTRIES && es[i].inUse
      ensures es[i].sector in Live(es, fs.open) && es[i].sector < |fs.disk| {
      assert es[i].sector in NamedSet(es);
    }
  }

  lemma MarkKeepsOpenOk(open: seq<OpenInode>, j: nat, files: seq<Option<File>>, pins: multiset<nat>)
    requires OpenOk(open, files, pins) && j < |open|
    ensures OpenOk(open[j := open[j].(removed := true)], files, pins)
    ensures OpenSet(open[j := open[j].(removed := true)]) == OpenSet(open)
  {
    CountAt(open, j, files, pins);
    PutOpenSet(open, j, open[j].(removed := true));
    PutKeepsOpenOk(open, j, open[j].(removed := true), files, files, pins, pins);
  }

  lemma MarkKeepsRemoved(open: seq<OpenInode>, j: nat, es: seq<Entry>, i: nat)
    requires RemovedOk(open, es) && DirOk(es) && Unique(open) && j < |open| && i < |es| && es[i].inUse
    requires open[j].sector == es[i].sector
    ensures RemovedOk(open[j := open[j].(removed := true)], es[i := es[i].(inUse := false)])
  {
    hide NamedSet;
    PutNamedSet(es, i, es[i].(inUse := false));
  }

  /** Unlinking an open file: it loses its name and is live for its openers only. */
  lemma UnlinkKeeps(fs: Fs, pins: multiset<nat>, i: nat)
    requires InvWith(fs, pins) && i < DIR_ENTRIES && Slots(fs.disk)[i].inUse
    requires IsOpen(fs.open, Slots(fs.disk)[i].sector)
    ensures var s := Slots(fs.disk)[i].sector; var fs' := Unlink(fs, RootData(fs.disk), i, s);
            && InvWith(fs', pins) && fs'.used == fs.used && fs'.files == fs.files
            && RootData(fs'.disk) == RootData(fs.disk)
            && Slots(fs'.disk) == Slots(fs.disk)[i := Slots(fs.disk)[i].(inUse := false)]
            && KeepsUsed(fs, fs') && SameOrphans(fs, fs')
  {
    hide OpenOk, CopyOk, RemovedOk, NamedSet, OpenSet, Entries, SpaceOk, EntryOf, ErasedEntry, PutSlot, DirOk;
    var es, r := Slots(fs.disk), RootData(fs.disk);
    var s := es[i].sector;
    var j := FindOpen(fs.open, s, 0).value;
    var b := ErasedEntry(SlotBytes(fs.disk, r, i));
    ErasedEntryReads(SlotBytes(fs.disk, r, i));
    SlotIs(fs.disk, i);
    var d := PutSlot(fs.disk, r, i, b);
    var live := Live(es, fs.open);
    PutSlotKeeps(fs, pins, i, b, live);
    RootSector(fs, pins);
    PutSlotWrites(fs.disk, i, b);
    CountAt(fs.open, j, fs.files, pins);
    MarkKeepsOpenOk(fs.open, j, fs.files, pins);
    MarkKeepsRemoved(fs.open, j, es, i);
    PutNamedSet(es, i, es[i].(inUse := false));
    ErasedDirOk(es, i);
    InOpenSet(fs.open, j);
    var fs' := Unlink(fs, r, i, s);
    assert Live(Slots(fs'.disk), fs'.open) == live;
    MarkKeepsCopies(fs.open, j, d);
    forall q: nat ensures IsOrphan(fs', q) <==> IsOrphan(fs, q) { OwnedFrame(fs.disk, d, live, q); }
  }

  lemma SlotIs(d: Image, i: nat)
    requires RootOk(d) && i < DIR_ENTRIES
    ensures Slots(d)[i] == EntryOf(SlotBytes(d, RootData(d), i))
  {
  }

  lemma ErasedDirOk(es: seq<Entry>, i: nat)
    requires DirOk(es) && i < |es|
    ensures DirOk(es[i := es[i].(inUse := false)])
  {
  }

  lemma MarkKeepsCopies(open: seq<OpenInode>, j: nat, d: Image)
    requires CopyOk(open, d) && j < |open|
    ensures CopyOk(open[j := open[j].(removed := true)], d)
  {
  }

  /** Entry `i` is among the first `n`, in use, and called `name`. */
  predicate Names(es: seq<Entry>, name: Name, n: nat, i: nat) {
    i < |es| && i < n && es[i].inUse && es[i].name == name
  }

  /** Some open inode is that of sector `s`. */
  ghost predicate Listed(open: seq<OpenInode>, s: nat) {
    exists j :: 0 <= j < |open| && open[j].sector == s
  }

  lemma ListedIsOpen(open: seq<OpenInode>, s: nat)
    ensures Listed(open, s) <==> IsOpen(open, s)
  {
    if IsOpen(open, s) { assert open[FindOpen(open, s, 0).value].sector == s; }
  }

  /** The search of the entries read finds exactly the entry with the name, and that is a file's. */
  lemma FindsNamed(fs: Fs, name: Name, n: nat)
    requires Inv(fs)
    ensures RootOk(fs.disk) && NamesOnDisk(fs.disk)
    ensures var es := Slots(fs.disk); var found := Find(Seen(es, n), name, 0);
            && (found.Some? ==> Names(es, name, n, found.value))
            && (forall i: nat :: Names(es, name, n, i) ==>
                   found == Some(i) && ROOT_DIR_SECTOR < es[i].sector < |fs.disk|)
  {
    hide OpenOk, CopyOk, RemovedOk, NamedSet, OpenSet, Slots, RootOk, SpaceOk;
    InvNamesOnDisk(fs, multiset{FREE_MAP_SECTOR});
    var es := Slots(fs.disk);
    forall i: nat | Names(es, name, n, i)
      ensures Find(Seen(es, n), name, 0) == Some(i) && ROOT_DIR_SECTOR < es[i].sector < |fs.disk|
    {
      assert Seen(es, n)[i] == es[i];
    }
  }

  /** Opening the root directory opens no other inode, and an inode opens if it is open already or there is memory. */
  lemma OpensIff(fs: Fs, s: nat, ok: bool)
    requires ROOT_DIR_SECTOR < s < |fs.disk|
    ensures InodeOpen(InodeOpen(fs, ROOT_DIR_SECTOR, true).0, s, ok).1 <==> Listed(fs.open, s) || ok
  {
    var f0 := InodeOpen(fs, ROOT_DIR_SECTOR, true).0;
    ListedIsOpen(f0.open, s);
    if Listed(fs.open, s) {
      var j :| 0 <= j < |fs.open| && fs.open[j].sector == s;
      var k := if IsOpen(fs.open, ROOT_DIR_SECTOR) then j else j + 1;
      assert f0.open[k].sector == s;
    }
  }

  /** The name is among the entries read, and its inode is open already or there is memory for it. */
  ghost predicate Reachable(fs: Fs, name: Name, nodeOk: bool, n: nat)
    requires RootOk(fs.disk)
  {
    exists i: nat :: Names(Slots(fs.disk), name, n, i) && (Listed(fs.open, Slots(fs.disk)[i].sector) || nodeOk)
  }

  /** `filesys_remove` succeeds exactly then. */
  lemma RemoveSucceedsIff(fs: Fs, name: Name, dirOk: bool, nodeOk: bool, lookup: nat, write: bool)
    requires Inv(fs)
    ensures RootOk(fs.disk) && NamesOnDisk(fs.disk)
    ensures Remove(fs, name, dirOk, nodeOk, lookup, write).1 <==> dirOk && write && Reachable(fs, name, nodeOk, lookup)
  {
    hide Slots, RootOk, InodeOpen, InodeClose, Unlink, Listed, InvWith;
    FindsNamed(fs, name, lookup);
    var found := Find(Seen(Slots(fs.disk), lookup), name, 0);
    if found.Some? {
      assert Names(Slots(fs.disk), name, lookup, found.value);
      OpensIff(fs, Slots(fs.disk)[found.value].sector, nodeOk);
    }
  }

  /** `filesys_remove` keeps the invariant; on success the name is gone and every other entry is as before. */
  lemma RemoveKeeps(fs: Fs, name: Name, dirOk: bool, fileOk: bool, lookup: nat, write: bool)
    requires Inv(fs)
    ensures NamesOnDisk(fs.disk)
    ensures var (fs', ok) := Remove(fs, name, dirOk, fileOk, lookup, write); var es := Slots(fs.disk);
            && Inv(fs') && fs'.files == fs.files && KeepsUsed(fs, fs') && SameOrphans(fs, fs')
            && (ok <==> dirOk && write && Reachable(fs, name, fileOk, lookup))
            && (if ok then Find(es, name, 0).Some?
               && (var i := Find(es, name, 0).value; Slots(fs'.disk) == es[i := es[i].(inUse := false)])
                else Slots(fs'.disk) == es)
  {
    hide DirOk, OpenOk, CopyOk, RemovedOk, NamedSet, OpenSet, Slots, RootOk, InodeOpen, InodeClose, SpaceOk, Unlink,
         IsOrphan;
    var one := multiset{ROOT_DIR_SECTOR};
    var pins := multiset{FREE_MAP_SECTOR};
    RemoveSucceedsIff(fs, name, dirOk, fileOk, lookup, write);
    hide Reachable;
    InvNamesOnDisk(fs, pins);
    SizesAgree(fs, pins);
    if dirOk {
      assert ROOT_DIR_SECTOR in Live(Slots(fs.disk), fs.open);
      InodeOpenKeeps(fs, ROOT_DIR_SECTOR, true, pins);
      OpenIsQuiet(fs, pins, ROOT_DIR_SECTOR, true);
      var f0 := InodeOpen(fs, ROOT_DIR_SECTOR, true).0;
      assert pins + one - one == pins;
      SeenFinds(Slots(fs.disk), name, lookup);
      var found := Find(Seen(Slots(fs.disk), lookup), name, 0);
      if found.None? {
        CloseBoth(f0, pins + one, ROOT_DIR_SECTOR);
      } else {
        var s := Slots(fs.disk)[found.value].sector;
        InodeOpenKeeps(f0, s, fileOk, pins + one);
        OpenIsQuiet(f0, pins + one, s, fileOk);
        var (f1, ok) := InodeOpen(f0, s, fileOk);
        if !ok {
          CloseBoth(f0, pins + one, ROOT_DIR_SECTOR);
        } else {
          var two := pins + one + multiset{s};
          var f2 := f1;
          if write {
            UnlinkKeeps(f1, two, found.value);
            f2 := Unlink(f1, RootData(fs.disk), found.value, s);
          }
          CloseBoth(f2, two, s);
          assert two - multiset{s} == pins + one;
          CloseBoth(InodeClose(f2, s), pins + one, ROOT_DIR_SECTOR);
        }
      }
    }
  }

  lemma CloseBoth(fs: Fs, pins: multiset<nat>, s: nat)
    requires InvWith(fs, pins) && pins[s] > 0
    ensures InvWith(InodeClose(fs, s), pins - multiset{s}) && Quiet(fs, InodeClose(fs, s))
  {
    InodeCloseKeeps(fs, s, pins);
    CloseIsQuiet(fs, pins, s);
  }

  // --------------------------------------------------- opening and closing files

  /** `file_open` on an inode just opened; `ok` says whether memory for the file is available. */
  function FileOpen(fs: Fs, s: nat, ok: bool): (res: (Fs, Option<nat>)) {
    if ok then (fs.(files := fs.files + [Some(File(s, 0, false))]), Some(|fs.files|)) else (InodeClose(fs, s), None)
  }

  /** `filesys_open`; `lookup` entries of the directory can be read. */
  function Open(fs: Fs, name: Name, dirOk: bool, nodeOk: bool, fileOk: bool, lookup: nat): (res: (Fs, Option<nat>))
    requires RootOk(fs.disk) && NamesOnDisk(fs.disk)
  {
    if !dirOk then (fs, None)
    else
      var f0 := InodeOpen(fs, ROOT_DIR_SECTOR, true).0;
      match Find(Seen(Slots(fs.disk), lookup), name, 0)
      case None => (InodeClose(f0, ROOT_DIR_SECTOR), None)
      case Some(i) =>
        var (f1, ok) := InodeOpen(f0, Slots(fs.disk)[i].sector, nodeOk);
        var f2 := InodeClose(f1, ROOT_DIR_SECTOR);
        if !ok then (f2, None) else FileOpen(f2, Slots(fs.disk)[i].sector, fileOk)
  }

  predicate IsFile(fs: Fs, h: nat) { h < |fs.files| && fs.files[h].Some? }

  /** `file_reopen`. */
  function Reopen(fs: Fs, h: nat, fileOk: bool): (res: (Fs, Option<nat>))
    requires IsFile(fs, h) && fs.files[h].value.sector < |fs.disk|
  {
    FileOpen(InodeOpen(fs, fs.files[h].value.sector, true).0, fs.files[h].value.sector, fileOk)
  }

  function SetDenied(fs: Fs, s: nat, delta: int): (r: Fs) {
    match FindOpen(fs.open, s, 0)
    case None => fs
    case Some(j) => if fs.open[j].denied + delta < 0 then fs
      else fs.(open := fs.open[j := fs.open[j].(denied := fs.open[j].denied + delta)])
  }

  function PutFile(fs: Fs, h: nat, f: Option<File>): (r: Fs)
    requires h < |fs.files|
  {
    fs.(files := fs.files[h := f])
  }

  /** `file_deny_write`. */
  function Deny(fs: Fs, h: nat): (r: Fs)
    requires IsFile(fs, h)
    ensures |r.files| == |fs.files|
  {
    var f := fs.files[h].value;
    if f.deny then fs else PutFile(SetDenied(fs, f.sector, 1), h, Some(f.(deny := true)))
  }

  /** `file_allow_write`. */
  function Allow(fs: Fs, h: nat): (r: Fs)
    requires IsFile(fs, h)
    ensures |r.files| == |fs.files|
  {
    var f := fs.files[h].value;
    if f.deny then PutFile(SetDenied(fs, f.sector, -1), h, Some(f.(deny := false))) else fs
  }

  /** `file_close`. */
  function Close(fs: Fs, h: nat): (r: Fs)
    requires IsFile(fs, h)
  {
    InodeClose(PutFile(Allow(fs, h), h, None), fs.files[h].value.sector)
  }

  /** The list of open inodes cares only how many openers each inode has. */
  lemma OpenersSame(open: seq<OpenInode>, files: seq<Option<File>>, files': seq<Option<File>>, pins: multiset<nat>,
                    pins': multiset<nat>)
    requires OpenOk(open, files, pins)
    requires forall t: nat :: Openers(files', pins', t) == Openers(files, pins, t)
    requires forall t: nat :: Tally(files', t, true) == Tally(files, t, true)
    ensures OpenOk(open, files', pins')
  {
    forall j | 0 <= j < |open| ensures CountOk(open[j], files', pins') { assert CountOk(open[j], files, pins); }
  }

  /** The pin that `inode_open` gave becomes a file, or is given back. */
  lemma FileOpenKeeps(fs: Fs, pins: multiset<nat>, s: nat, ok: bool)
    requires InvWith(fs, pins) && pins[s] > 0 && s >= 2
    ensures var (fs', h) := FileOpen(fs, s, ok);
            && InvWith(fs', pins - multiset{s}) && fs'.disk == fs.disk && SameOrphans(fs, fs')
            && (if h.Some? then h.value == |fs.files| && fs'.files == fs.files + [Some(File(s, 0, false))]
               else fs'.files == fs.files)
  {
    hide DirOk, CopyOk, RemovedOk, SpaceOk, Slots, RootOk, OpenSet, NamedSet, OpenOk, Tally;
    if ok {
      var files' := fs.files + [Some(File(s, 0, false))];
      forall t: nat
        ensures Openers(files', pins - multiset{s}, t) == Openers(fs.files, pins, t)
        ensures Tally(files', t, true) == Tally(fs.files, t, true)
      {
        TallyAppend(fs.files, Some(File(s, 0, false)), t, false);
        TallyAppend(fs.files, Some(File(s, 0, false)), t, true);
      }
      OpenersSame(fs.open, fs.files, files', pins, pins - multiset{s});
    } else {
      CloseBoth(fs, pins, s);
    }
  }

  /** `filesys_open` succeeds exactly then. */
  lemma OpenSucceedsIff(fs: Fs, name: Name, dirOk: bool, nodeOk: bool, fileOk: bool, lookup: nat)
    requires Inv(fs)
    ensures RootOk(fs.disk) && NamesOnDisk(fs.disk)
    ensures Open(fs, name, dirOk, nodeOk, fileOk, lookup).1.Some? <==>
              dirOk && fileOk && Reachable(fs, name, nodeOk, lookup)
  {
    hide Slots, RootOk, InodeOpen, InodeClose, Listed, InvWith;
    FindsNamed(fs, name, lookup);
    var found := Find(Seen(Slots(fs.disk), lookup), name, 0);
    if found.Some? {
      assert Names(Slots(fs.disk), name, lookup, found.value);
      OpensIff(fs, Slots(fs.disk)[found.value].sector, nodeOk);
    }
  }

  /** `filesys_open` keeps the invariant; the file it returns is the one of that name. */
  lemma OpenKeeps(fs: Fs, name: Name, dirOk: bool, nodeOk: bool, fileOk: bool, lookup: nat)
    requires Inv(fs)
    ensures NamesOnDisk(fs.disk)
    ensures var (fs', h) := Open(fs, name, dirOk, nodeOk, fileOk, lookup); var found := Find(Slots(fs.disk), name, 0);
            && Inv(fs') && fs'.disk == fs.disk && SameOrphans(fs, fs')
            && (h.Some? <==> dirOk && fileOk && Reachable(fs, name, nodeOk, lookup))
            && (if h.Some? then found.Some? && h.value == |fs.files|
               && fs'.files == fs.files + [Some(File(Slots(fs.disk)[found.value].sector, 0, false))]
                else fs'.files == fs.files)
  {
    hide DirOk, OpenOk, CopyOk, RemovedOk, NamedSet, OpenSet, Slots, RootOk, InodeOpen, InodeClose, SpaceOk, FileOpen,
         IsOrphan;
    var one := multiset{ROOT_DIR_SECTOR};
    var pins := multiset{FREE_MAP_SECTOR};
    OpenSucceedsIff(fs, name, dirOk, nodeOk, fileOk, lookup);
    hide Reachable;
    InvNamesOnDisk(fs, pins);
    if dirOk {
      assert ROOT_DIR_SECTOR in Live(Slots(fs.disk), fs.open);
      InodeOpenKeeps(fs, ROOT_DIR_SECTOR, true, pins);
      OpenIsQuiet(fs, pins, ROOT_DIR_SECTOR, true);
      var f0 := InodeOpen(fs, ROOT_DIR_SECTOR, true).0;
      assert pins + one - one == pins;
      SeenFinds(Slots(fs.disk), name, lookup);
      var found := Find(Seen(Slots(fs.disk), lookup), name, 0);
      if found.None? {
        CloseBoth(f0, pins + one, ROOT_DIR_SECTOR);
      } else {
        var s := Slots(fs.disk)[found.value].sector;
        InodeOpenKeeps(f0, s, nodeOk, pins + one);
        OpenIsQuiet(f0, pins + one, s, nodeOk);
        var (f1, ok) := InodeOpen(f0, s, nodeOk);
        if !ok {
          CloseBoth(f0, pins + one, ROOT_DIR_SECTOR);
        } else {
          CloseBoth(f1, pins + one + multiset{s}, ROOT_DIR_SECTOR);
          assert pins + one + multiset{s} - one == pins + multiset{s} && pins + multiset{s} - multiset{s} == pins;
          NamedIsFile(fs.disk, found.value);
          FileOpenKeeps(InodeClose(f1, ROOT_DIR_SECTOR), pins + multiset{s}, s, fileOk);
        }
      }
    }
  }

  lemma NamedIsFile(d: Image, i: nat)
    requires RootOk(d) && DirOk(Slots(d)) && i < DIR_ENTRIES && Slots(d)[i].inUse
    ensures Slots(d)[i].sector >= 2
  {
  }

  lemma {:induction false} FileIsCounted(files: seq<Option<File>>, h: nat)
    requires h < |files| && files[h].Some?
    ensures Tally(files, files[h].value.sector, false) > 0
    ensures (files[h].value.deny ==> Tally(files, files[h].value.sector, true) > 0)
  {
    if h < |files| - 1 { FileIsCounted(files[..|files| - 1], h); }
  }

  /** The inode of an open file is on the list, live, and its copy is the one on disk. */
  lemma FileIsOpen(fs: Fs, pins: multiset<nat>, h: nat)
    requires InvWith(fs, pins) && IsFile(fs, h)
    ensures var s := fs.files[h].value.sector;
            && s >= 2 && s < |fs.disk| && s in Live(Slots(fs.disk), fs.open) && IsOpen(fs.open, s)
            && fs.open[FindOpen(fs.open, s, 0).value].node == NodeAt(fs.disk, s) && OnDisk(fs.disk, NodeAt(fs.disk, s))
            && CountOk(fs.open[FindOpen(fs.open, s, 0).value], fs.files, pins)
  {
    hide Slots, DirOk, RemovedOk, OpenSet, NamedSet, OpenOk, RootOk, CopyOk, Tally;
    var s := fs.files[h].value.sector;
    FileIsCounted(fs.files, h);
    OpenersListed(fs.open, fs.files, pins, s);
    var j := FindOpen(fs.open, s, 0).value;
    CountAt(fs.open, j, fs.files, pins);
    RemovedIs(fs.open, j, Slots(fs.disk), fs.disk);
    OpenIsLive(fs.disk, fs.open, s);
  }

  /** `file_reopen`. */
  lemma ReopenKeeps(fs: Fs, h: nat, fileOk: bool)
    requires Inv(fs) && IsFile(fs, h)
    ensures fs.files[h].value.sector < |fs.disk|
    ensures var (fs', g) := Reopen(fs, h, fileOk);
            && Inv(fs') && fs'.disk == fs.disk && SameOrphans(fs, fs') && (g.Some? <==> fileOk)
            && (if g.Some? then g.value == |fs.files|
               && fs'.files == fs.files + [Some(File(fs.files[h].value.sector, 0, false))] else fs'.files == fs.files)
  {
    hide DirOk, OpenOk, CopyOk, RemovedOk, NamedSet, OpenSet, Slots, RootOk, InodeOpen, InodeClose, SpaceOk, IsOrphan;
    var pins := multiset{FREE_MAP_SECTOR};
    FileIsOpen(fs, pins, h);
    var s := fs.files[h].value.sector;
    InodeOpenKeeps(fs, s, true, pins);
    OpenIsQuiet(fs, pins, s, true);
    FileOpenKeeps(InodeOpen(fs, s, true).0, pins + multiset{s}, s, fileOk);
    assert pins + multiset{s} - multiset{s} == pins;
  }

  // ------------------------------------------------------------- denying writes

  lemma PutFileKeepsOpenOk(fs: Fs, pins: multiset<nat>, h: nat, deny: bool)
    requires InvWith(fs, pins) && IsFile(fs, h) && fs.files[h].value.deny != deny
    ensures var f := fs.files[h].value;
            var fs' := PutFile(SetDenied(fs, f.sector, if deny then 1 else -1), h, Some(f.(deny := deny)));
            && OpenOk(fs'.open, fs'.files, pins) && OpenSet(fs'.open) == OpenSet(fs.open)
            && CopyOk(fs'.open, fs.disk) && RemovedOk(fs'.open, Slots(fs.disk))
            && fs' == fs.(open := fs'.open, files := fs.files[h := Some(f.(deny := deny))])
  {
    hide Slots, DirOk, OpenSet, NamedSet, OpenOk, RootOk, Tally, SpaceOk;
    var f := fs.files[h].value;
    var s := f.sector;
    FileIsOpen(fs, pins, h);
    FileIsCounted(fs.files, h);
    var j := FindOpen(fs.open, s, 0).value;
    var delta := if deny then 1 else -1;
    var files' := fs.files[h := Some(f.(deny := deny))];
    var x := fs.open[j].(denied := fs.open[j].denied + delta);
    forall t: nat
      ensures Openers(files', pins, t) == Openers(fs.files, pins, t)
      ensures Tally(files', t, true) == Tally(fs.files, t, true) + (if t == s then delta else 0)
    {
      TallyUpdate(fs.files, h, Some(f.(deny := deny)), t, false);
      TallyUpdate(fs.files, h, Some(f.(deny := deny)), t, true);
    }
    PutOpenSet(fs.open, j, x);
    PutKeepsOpenOk(fs.open, j, x, fs.files, files', pins, pins);
  }

  /** Turning a file's denial on or off: the inode's count of denials follows, and its assertions hold. */
  lemma DenialKeeps(fs: Fs, pins: multiset<nat>, h: nat, deny: bool)
    requires InvWith(fs, pins) && IsFile(fs, h)
    ensures var fs' := if deny then Deny(fs, h) else Allow(fs, h);
            && InvWith(fs', pins) && SameOrphans(fs, fs') && fs'.disk == fs.disk && fs'.used == fs.used
            && fs'.files == fs.files[h := Some(fs.files[h].value.(deny := deny))]
  {
    hide Slots, DirOk, OpenSet, NamedSet, OpenOk, RootOk, Tally, SpaceOk, CopyOk, RemovedOk, SetDenied;
    var f := fs.files[h].value;
    if f.deny != deny {
      PutFileKeepsOpenOk(fs, pins, h, deny);
    } else {
      assert fs.files[h := Some(f.(deny := deny))] == fs.files;
    }
  }

  /** `inode_deny_write` never counts more denials than openers. */
  lemma DenialsAtMostOpeners(fs: Fs, j: nat)
    requires Inv(fs) && j < |fs.open|
    ensures fs.open[j].denied <= fs.open[j].cnt
  {
    hide Slots, DirOk, OpenSet, NamedSet, OpenOk, RootOk, Tally, SpaceOk, CopyOk, RemovedOk;
    CountAt(fs.open, j, fs.files, multiset{FREE_MAP_SECTOR});
    DenyAtMostOpen(fs.files, fs.open[j].sector);
  }

  /** `file_close` keeps the invariant: the file's pin goes back to its inode, which is then closed. */
  lemma CloseKeeps(fs: Fs, h: nat)
    requires Inv(fs) && IsFile(fs, h)
    ensures var fs' := Close(fs, h);
            Inv(fs') && fs'.disk == fs.disk && fs'.files == fs.files[h := None] && SameOrphans(fs, fs')
  {
    hide DirOk, OpenOk, CopyOk, RemovedOk, NamedSet, OpenSet, Slots, RootOk, SpaceOk, Allow, InodeClose, IsOrphan,
         Tally;
    var pins := multiset{FREE_MAP_SECTOR};
    var s := fs.files[h].value.sector;
    DenialKeeps(fs, pins, h, false);
    var f1 := Allow(fs, h);
    var f2 := PutFile(f1, h, None);
    forall t: nat
      ensures Openers(f2.files, pins + multiset{s}, t) == Openers(f1.files, pins, t)
      ensures Tally(f2.files, t, true) == Tally(f1.files, t, true)
    {
      TallyUpdate(f1.files, h, None, t, false);
      TallyUpdate(f1.files, h, None, t, true);
    }
    OpenersSame(f1.open, f1.files, f2.files, pins, pins + multiset{s});
    assert InvWith(f2, pins + multiset{s});
    PutFileOrphans(f1, h);
    CloseBoth(f2, pins + multiset{s}, s);
    assert pins + multiset{s} - multiset{s} == pins;
    assert f2.files == fs.files[h := None];
  }

  lemma PutFileOrphans(fs: Fs, h: nat)
    requires RootOk(fs.disk) && h < |fs.files|
    ensures SameOrphans(fs, PutFile(fs, h, None))
  {
  }

  /**
   `file_close` frees the sectors of a removed file if it was the last opener, exactly those, and none otherwise;
   the file is live no longer exactly then.
   */
  lemma CloseReleases(fs: Fs, h: nat)
    requires Inv(fs) && IsFile(fs, h)
    ensures var s := fs.files[h].value.sector; IsOpen(fs.open, s) && s < |fs.disk|
    ensures var s := fs.files[h].value.sector; var fs' := Close(fs, h); var x := fs.open[FindOpen(fs.open, s, 0).value];
            && |fs'.used| == |fs.used|
            && (forall q :: 0 <= q < |fs.used| ==>
                   (fs'.used[q] <==> fs.used[q] && !(x.cnt == 1 && x.removed && Owns(fs.disk, s, q))))
            && Live(Slots(fs.disk), fs'.open)
               == Live(Slots(fs.disk), fs.open) - (if x.cnt == 1 && x.removed then {s} else {})
  {
    hide DirOk, OpenOk, CopyOk, RemovedOk, NamedSet, OpenSet, Slots, RootOk, SpaceOk, InodeClose, IsOrphan, Tally;
    var pins := multiset{FREE_MAP_SECTOR};
    var s := fs.files[h].value.sector;
    FileIsOpen(fs, pins, h);
    DenialKeeps(fs, pins, h, false);
    var f1 := Allow(fs, h);
    var f2 := PutFile(f1, h, None);
    forall t: nat
      ensures Openers(f2.files, pins + multiset{s}, t) == Openers(f1.files, pins, t)
      ensures Tally(f2.files, t, true) == Tally(f1.files, t, true)
    {
      TallyUpdate(f1.files, h, None, t, false);
      TallyUpdate(f1.files, h, None, t, true);
    }
    OpenersSame(f1.open, f1.files, f2.files, pins, pins + multiset{s});
    AllowKeepsEntry(fs, h);
    CloseFrees(f2, pins + multiset{s}, s);
  }

  lemma AllowKeepsEntry(fs: Fs, h: nat)
    requires IsFile(fs, h) && IsOpen(fs.open, fs.files[h].value.sector)
    ensures var s := fs.files[h].value.sector; var f1 := Allow(fs, h); var j := FindOpen(fs.open, s, 0);
            && FindOpen(f1.open, s, 0) == j && f1.open[j.value].cnt == fs.open[j.value].cnt
            && f1.open[j.value].removed == fs.open[j.value].removed
            && OpenSet(f1.open) == OpenSet(fs.open)
  {
    var s := fs.files[h].value.sector;
    var j := FindOpen(fs.open, s, 0).value;
    var x := fs.open[j].(denied := if fs.files[h].value.deny && fs.open[j].denied > 0 then fs.open[j].denied - 1
        else fs.open[j].denied);
    PutOpenSet(fs.open, j, x);
    FindOpenPut(fs.open, j, x, s, 0);
    assert Allow(fs, h).open == fs.open[j := x];
  }

  lemma {:induction false} FindOpenPut(open: seq<OpenInode>, j: nat, x: OpenInode, s: nat, i: nat)
    requires j < |open| && x.sector == open[j].sector && i <= |open|
    ensures FindOpen(open[j := x], s, i) == FindOpen(open, s, i)
    decreases |open| - i
  {
    if i < |open| { FindOpenPut(open, j, x, s, i + 1); }
  }

  // --------------------------------------------------------- reading and writing

  /** `file_read`; `bounce` says whether memory for the bounce buffer is available. */
  function Read(fs: Fs, h: nat, size: int, bounce: bool): (res: (Fs, seq<byte>))
    requires IsFile(fs, h) && IsOpen(fs.open, fs.files[h].value.sector)
    requires OnDisk(fs.disk, fs.open[FindOpen(fs.open, fs.files[h].value.sector, 0).value].node)
  {
    var f := fs.files[h].value;
    var node := fs.open[FindOpen(fs.open, f.sector, 0).value].node;
    var n := Transfer(node, size, f.pos, bounce);
    (PutFile(fs, h, Some(f.(pos := f.pos + n))), if n == 0 then [] else Contents(fs.disk, node)[f.pos..f.pos + n])
  }

  /** `file_write`: nothing is written while any opener denies writes, nor beyond the end of the file. */
  function Write(fs: Fs, h: nat, b: seq<byte>, bounce: bool): (res: (Fs, nat))
    requires IsFile(fs, h) && IsOpen(fs.open, fs.files[h].value.sector)
  {
    var f := fs.files[h].value;
    var x := fs.open[FindOpen(fs.open, f.sector, 0).value];
    if x.denied > 0 then (fs, 0)
    else
      var n := Transfer(x.node, |b|, f.pos, bounce);
      (PutFile(fs.(disk := Patch(fs.disk, x.node.start * SECTOR_SIZE + f.pos, b[..n])), h, Some(f.(pos := f.pos + n))),
          n)
  }

  /** A byte string with `b` written over it at `p`. */
  function Splice(c: seq<byte>, p: nat, b: seq<byte>): (r: seq<byte>)
    requires b != [] ==> p + |b| <= |c|
    ensures |r| == |c|
  {
    if b == [] then c else c[..p] + b + c[p + |b|..]
  }

  /** The bytes of a file as bytes of the disk. */
  lemma ContentsAt(d: Image, node: Node, i: nat)
    requires OnDisk(d, node) && i < node.length
    ensures node.start * SECTOR_SIZE + i < |d| * SECTOR_SIZE
    ensures Contents(d, node)[i] == At(d, node.start * SECTOR_SIZE + i)
  {
  }

  lemma WriteSplices(d: Image, node: Node, pos: nat, b: seq<byte>)
    requires OnDisk(d, node) && b != [] && pos + |b| <= node.length
    ensures Contents(Patch(d, node.start * SECTOR_SIZE + pos, b), node) == Splice(Contents(d, node), pos, b)
  {
    hide Contents, At, Patch;
    var p := node.start * SECTOR_SIZE + pos;
    forall i | 0 <= i < node.length ensures Contents(Patch(d, p, b), node)[i] == Splice(Contents(d, node), pos, b)[i] {
      ContentsAt(d, node, i);
      ContentsAt(Patch(d, p, b), node, i);
      PatchAt(d, p, b, node.start * SECTOR_SIZE + i);
    }
  }

  lemma WriteElsewhere(d: Image, node: Node, pos: nat, b: seq<byte>, q: nat)
    requires OnDisk(d, node) && b != [] && pos + |b| <= node.length && q < |d| && !DataOf(node, q)
    ensures Patch(d, node.start * SECTOR_SIZE + pos, b)[q] == d[q]
  {
    PatchElsewhere(d, node.start * SECTOR_SIZE + pos, b, q);
  }

  /** A write within a file touches the file's data sectors only, and is a splice of its contents. */
  lemma WriteWithin(d: Image, node: Node, pos: nat, b: seq<byte>)
    requires OnDisk(d, node) && (b != [] ==> pos + |b| <= node.length)
    ensures var d' := Patch(d, node.start * SECTOR_SIZE + pos, b);
            && (forall q: nat :: q < |d| && !DataOf(node, q) ==> d'[q] == d[q])
            && OnDisk(d', node) && Contents(d', node) == Splice(Contents(d, node), pos, b)
  {
    hide Contents, Patch;
    var p := node.start * SECTOR_SIZE + pos;
    if b == [] {
      PatchNothing(d, p);
    } else {
      forall q: nat | q < |d| && !DataOf(node, q)
        ensures Patch(d, p, b)[q] == d[q] { WriteElsewhere(d, node, pos, b, q); }
      WriteSplices(d, node, pos, b);
    }
  }

  /** No inode and no other file's data lies in the data sectors of a live file. */
  lemma DataApart(used: seq<bool>, d: Image, live: set<nat>, s: nat, t: nat, q: nat)
    requires SpaceOk(used, d, live) && s in live && t in live && (q == t || (t != s && DataOf(NodeAt(d, t), q)))
    ensures s < |d| && t < |d| && q < |d| && !DataOf(NodeAt(d, s), q)
  {
    assert Owns(d, t, q);
    assert DataOf(NodeAt(d, s), q) ==> Owns(d, s, q);
  }

  /** Writing into a live file keeps the invariant. */
  lemma PatchKeeps(fs: Fs, pins: multiset<nat>, s: nat, pos: nat, b: seq<byte>)
    requires InvWith(fs, pins) && s in Live(Slots(fs.disk), fs.open) && s >= 2 && s < |fs.disk|
    requires b != [] ==> pos + |b| <= NodeAt(fs.disk, s).length
    ensures var d' := Patch(fs.disk, NodeAt(fs.disk, s).start * SECTOR_SIZE + pos, b);
            && InvWith(fs.(disk := d'), pins) && Slots(d') == Slots(fs.disk) && SameOrphans(fs, fs.(disk := d'))
            && (forall t :: t in Live(Slots(fs.disk), fs.open) ==> t < |d'| && NodeAt(d', t) == NodeAt(fs.disk, t))
  {
    hide DirOk, OpenOk, CopyOk, RemovedOk, NamedSet, OpenSet, Entries, SpaceOk, Patch, Contents, Splice, NodeOf, Owned;
    var node := NodeAt(fs.disk, s);
    var d' := Patch(fs.disk, node.start * SECTOR_SIZE + pos, b);
    var live := Live(Slots(fs.disk), fs.open);
    LiveOnDisk(fs.used, fs.disk, live, s);
    WriteWithin(fs.disk, node, pos, b);
    forall t | t in live ensures t < |d'| && d'[t] == fs.disk[t] { DataApart(fs.used, fs.disk, live, s, t, t); }
    assert ROOT_DIR_SECTOR in live;
    DataApart(fs.used, fs.disk, live, s, ROOT_DIR_SECTOR, RootData(fs.disk));
    SlotsFrame(fs.disk, d');
    SpaceFrame(fs.used, fs.used, fs.disk, d', live);
    CopyFrame(fs.open, Slots(fs.disk), fs.disk, d');
    forall q: nat ensures IsOrphan(fs.(disk := d'), q) <==> IsOrphan(fs, q) { OwnedFrame(fs.disk, d', live, q); }
  }

  lemma LiveOnDisk(used: seq<bool>, d: Image, live: set<nat>, s: nat)
    requires SpaceOk(used, d, live) && s in live
    ensures s < |d| && OnDisk(d, NodeAt(d, s))
  {
  }

  /** Moving a file's position changes nothing else. */
  lemma SeekKeeps(fs: Fs, pins: multiset<nat>, h: nat, pos: nat)
    requires InvWith(fs, pins) && IsFile(fs, h)
    ensures var fs' := PutFile(fs, h, Some(fs.files[h].value.(pos := pos))); InvWith(fs', pins) && SameOrphans(fs, fs')
  {
    hide DirOk, OpenOk, CopyOk, RemovedOk, NamedSet, OpenSet, Entries, SpaceOk, Tally, Slots, RootOk;
    var g := Some(fs.files[h].value.(pos := pos));
    forall t: nat
      ensures Openers(fs.files[h := g], pins, t) == Openers(fs.files, pins, t)
      ensures Tally(fs.files[h := g], t, true) == Tally(fs.files, t, true)
    {
      TallyUpdate(fs.files, h, g, t, false);
      TallyUpdate(fs.files, h, g, t, true);
    }
    OpenersSame(fs.open, fs.files, fs.files[h := g], pins, pins);
  }
}
