/**
 When the calls that name files succeed and what they free, said of the directory, the open files and the free map.
 */
module FileOutcomes {
  import opened Base
  import opened Disk
  import opened DiskFormat
  import opened Bits
  import opened FileSys
  import opened FileCalls
  import opened FileRuns
  import opened FileTheorems

  // ------------------------------------------------------------------ removal

  lemma ErasedNames(es: seq<Entry>, i: nat)
    requires DirOk(es) && i < |es| && es[i].inUse
    ensures NamedSet(es[i := es[i].(inUse := false)]) == NamedSet(es) - {es[i].sector}
  {
    var es' := es[i := es[i].(inUse := false)];
    forall x | x in NamedSet(es) - {es[i].sector} ensures x in NamedSet(es') {
      var k :| 0 <= k < |es| && es[k].inUse && es[k].sector == x;
      assert es'[k] == es[k];
    }
  }

  /** After a successful removal the name's entry, and no other, has gone out of use. */
  lemma RemoveErases(fs: Fs, name: Name, dirOk: bool, nodeOk: bool, lookup: nat, write: bool, i: nat)
    requires Inv(fs) && RootOk(fs.disk) && NamesOnDisk(fs.disk) && Names(Slots(fs.disk), name, lookup, i)
    requires Remove(fs, name, dirOk, nodeOk, lookup, write).1
    ensures var fs' := Remove(fs, name, dirOk, nodeOk, lookup, write).0; var es := Slots(fs.disk);
            && RootOk(fs'.disk) && Slots(fs'.disk) == es[i := es[i].(inUse := false)]
            && NamedSet(Slots(fs'.disk)) == NamedSet(es) - {es[i].sector}
  {
    hide Slots, RootOk, OpenOk, CopyOk, RemovedOk, SpaceOk, Remove, NamedSet, DirOk;
    RemoveKeeps(fs, name, dirOk, nodeOk, lookup, write);
    FindsNamed(fs, name, lookup);
    SeenFinds(Slots(fs.disk), name, lookup);
    ErasedNames(Slots(fs.disk), i);
  }

  /** Openers listed before are listed after, as no file is opened or closed. */
  lemma SameListed(fs: Fs, fs': Fs, s: nat)
    requires Inv(fs) && Inv(fs') && fs'.files == fs.files
    ensures Listed(fs'.open, s) <==> Listed(fs.open, s)
  {
    hide Slots, RootOk, CopyOk, RemovedOk, SpaceOk, DirOk, NamedSet, Tally;
    var pins := multiset{FREE_MAP_SECTOR};
    if Listed(fs.open, s) {
      var j :| 0 <= j < |fs.open| && fs.open[j].sector == s;
      assert CountOk(fs.open[j], fs.files, pins);
      OpenersListed(fs'.open, fs.files, pins, s);
      ListedIsOpen(fs'.open, s);
    }
    if Listed(fs'.open, s) {
      var j :| 0 <= j < |fs'.open| && fs'.open[j].sector == s;
      assert CountOk(fs'.open[j], fs.files, pins);
      OpenersListed(fs.open, fs.files, pins, s);
      ListedIsOpen(fs.open, s);
    }
  }

  /** The removed file stays while it is open: its inode is still listed, marked removed, and live. */
  lemma RemoveOfOpenFile(fs: Fs, name: Name, dirOk: bool, nodeOk: bool, lookup: nat, write: bool, i: nat)
    requires Inv(fs) && RootOk(fs.disk) && NamesOnDisk(fs.disk) && Names(Slots(fs.disk), name, lookup, i)
    requires Remove(fs, name, dirOk, nodeOk, lookup, write).1 && Listed(fs.open, Slots(fs.disk)[i].sector)
    ensures var fs' := Remove(fs, name, dirOk, nodeOk, lookup, write).0; var s := Slots(fs.disk)[i].sector;
            && RootOk(fs'.disk) && s in Live(Slots(fs'.disk), fs'.open) && Listed(fs'.open, s)
            && forall j :: 0 <= j < |fs'.open| && fs'.open[j].sector == s ==>
                 fs'.open[j].removed && fs'.open[j].cnt == Tally(fs.files, s, false)
  {
    hide Slots, RootOk, CopyOk, SpaceOk, DirOk, NamedSet, Remove, Tally;
    RemoveKeeps(fs, name, dirOk, nodeOk, lookup, write);
    RemoveErases(fs, name, dirOk, nodeOk, lookup, write, i);
    FindsNamed(fs, name, lookup);
    var fs' := Remove(fs, name, dirOk, nodeOk, lookup, write).0;
    var s := Slots(fs.disk)[i].sector;
    SameListed(fs, fs', s);
    ListedIsOpen(fs'.open, s);
    OpenMember(fs'.open, s);
    forall j | 0 <= j < |fs'.open| && fs'.open[j].sector == s
      ensures fs'.open[j].removed && fs'.open[j].cnt == Tally(fs.files, s, false)
    {
      assert CountOk(fs'.open[j], fs.files, multiset{FREE_MAP_SECTOR});
    }
  }

  /** The files that live on are the same, but for one removed while nothing has it open. */
  lemma RemoveLive(fs: Fs, name: Name, dirOk: bool, nodeOk: bool, lookup: nat, write: bool, i: nat)
    requires Inv(fs) && RootOk(fs.disk) && NamesOnDisk(fs.disk) && Names(Slots(fs.disk), name, lookup, i)
    requires Remove(fs, name, dirOk, nodeOk, lookup, write).1
    ensures var fs' := Remove(fs, name, dirOk, nodeOk, lookup, write).0; var s := Slots(fs.disk)[i].sector;
            && RootOk(fs'.disk)
            && Live(Slots(fs'.disk), fs'.open) ==
               Live(Slots(fs.disk), fs.open) - (if Listed(fs.open, s) then {} else {s})
  {
    hide Slots, RootOk, CopyOk, SpaceOk, DirOk, NamedSet, OpenSet, Remove, OpenOk, RemovedOk, Listed;
    RemoveKeeps(fs, name, dirOk, nodeOk, lookup, write);
    RemoveErases(fs, name, dirOk, nodeOk, lookup, write, i);
    FindsNamed(fs, name, lookup);
    var fs' := Remove(fs, name, dirOk, nodeOk, lookup, write).0;
    var s := Slots(fs.disk)[i].sector;
    forall t ensures t in OpenSet(fs'.open) <==> t in OpenSet(fs.open) {
      SameListed(fs, fs', t);
      ListedIsOpen(fs.open, t);
      ListedIsOpen(fs'.open, t);
      OpenMember(fs.open, t);
      OpenMember(fs'.open, t);
    }
    ListedIsOpen(fs.open, s);
    OpenMember(fs.open, s);
  }

  lemma SameNode(fs: Fs, fs': Fs, t: nat)
    requires Inv(fs) && RootOk(fs.disk) && KeepsUsed(fs, fs') && t in Live(Slots(fs.disk), fs.open)
    ensures |fs'.disk| == |fs.disk| && t < |fs.disk| && NodeAt(fs'.disk, t) == NodeAt(fs.disk, t)
  {
    hide Slots, CopyOk, DirOk, NamedSet, OpenSet, OpenOk, RemovedOk;
    NotRootData(fs.used, fs.disk, Live(Slots(fs.disk), fs.open), t);
    assert Owns(fs.disk, t, t);
  }

  /** Marked sectors are the orphans and those of live files. */
  lemma MarkedIff(fs: Fs, q: nat)
    requires Inv(fs) && RootOk(fs.disk) && q < |fs.used|
    ensures fs.used[q] <==> IsOrphan(fs, q) || Owned(fs.disk, Live(Slots(fs.disk), fs.open), q)
    ensures !IsOrphan(fs, q) || !Owned(fs.disk, Live(Slots(fs.disk), fs.open), q)
  {
    hide Slots, CopyOk, DirOk, NamedSet, OpenSet, OpenOk, RemovedOk;
  }

  lemma OneOwner(fs: Fs, s: nat, t: nat, q: nat)
    requires Inv(fs) && RootOk(fs.disk) && s < |fs.disk| && t < |fs.disk| && Owns(fs.disk, s, q) && Owns(fs.disk, t, q)
    requires s in Live(Slots(fs.disk), fs.open) && t in Live(Slots(fs.disk), fs.open)
    ensures s == t
  {
    hide Slots, CopyOk, DirOk, NamedSet, OpenSet, OpenOk, RemovedOk, NodeAt;
  }

  /** Files do not share sectors, so without the file in sector `s` exactly its sectors have no owner. */
  lemma OwnedWithout(fs: Fs, fs': Fs, live': set<nat>, s: nat, q: nat)
    requires Inv(fs) && RootOk(fs.disk) && KeepsUsed(fs, fs') && s in Live(Slots(fs.disk), fs.open) && s < |fs.disk|
    requires live' == Live(Slots(fs.disk), fs.open) - {s}
    ensures Owned(fs'.disk, live', q) <==>
              Owned(fs.disk, Live(Slots(fs.disk), fs.open), q) && !Owns(fs.disk, s, q)
    ensures Owns(fs.disk, s, q) ==> Owned(fs.disk, Live(Slots(fs.disk), fs.open), q)
  {
    hide Slots, CopyOk, DirOk, NamedSet, OpenSet, OpenOk, RemovedOk, KeepsUsed, InvWith;
    var live := Live(Slots(fs.disk), fs.open);
    forall t | t in live ensures |fs'.disk| == |fs.disk| && t < |fs.disk| && NodeAt(fs'.disk, t) == NodeAt(fs.disk, t) {
      SameNode(fs, fs', t);
    }
    if Owned(fs'.disk, live', q) {
      var t :| t in live' && t < |fs'.disk| && Owns(fs'.disk, t, q);
      assert t in live && Owns(fs.disk, t, q);
      if Owns(fs.disk, s, q) { OneOwner(fs, s, t, q); }
    }
    if Owned(fs.disk, live, q) && !Owns(fs.disk, s, q) {
      var t :| t in live && t < |fs.disk| && Owns(fs.disk, t, q);
      assert t in live' && Owns(fs'.disk, t, q);
    }
  }

  lemma OwnedAlike(fs: Fs, fs': Fs, q: nat)
    requires Inv(fs) && RootOk(fs.disk) && KeepsUsed(fs, fs')
    ensures Owned(fs'.disk, Live(Slots(fs.disk), fs.open), q) <==> Owned(fs.disk, Live(Slots(fs.disk), fs.open), q)
  {
    hide Slots, CopyOk, DirOk, NamedSet, OpenSet, OpenOk, RemovedOk, KeepsUsed, InvWith;
    var live := Live(Slots(fs.disk), fs.open);
    forall t | t in live ensures |fs'.disk| == |fs.disk| && t < |fs.disk| && NodeAt(fs'.disk, t) == NodeAt(fs.disk, t) {
      SameNode(fs, fs', t);
    }
    if Owned(fs'.disk, live, q) {
      var t :| t in live && t < |fs'.disk| && Owns(fs'.disk, t, q);
      assert Owns(fs.disk, t, q);
    }
    if Owned(fs.disk, live, q) {
      var t :| t in live && t < |fs.disk| && Owns(fs.disk, t, q);
      assert Owns(fs'.disk, t, q);
    }
  }

  /** A file removed while nothing has it open gives back exactly its own sectors; an open one gives back none. */
  lemma RemoveFrees(fs: Fs, name: Name, dirOk: bool, nodeOk: bool, lookup: nat, write: bool, i: nat, q: nat)
    requires Inv(fs) && RootOk(fs.disk) && NamesOnDisk(fs.disk) && Names(Slots(fs.disk), name, lookup, i)
    requires Remove(fs, name, dirOk, nodeOk, lookup, write).1
    requires q < |fs.used|
    ensures var fs' := Remove(fs, name, dirOk, nodeOk, lookup, write).0; var s := Slots(fs.disk)[i].sector;
            && |fs'.used| == |fs.used|
            && (fs'.used[q] <==> fs.used[q] && (Listed(fs.open, s) || !Owns(fs.disk, s, q)))
  {
    hide Slots, RootOk, CopyOk, DirOk, NamedSet, OpenSet, Remove, OpenOk, RemovedOk, Listed, SpaceOk, KeepsUsed, Owns,
         IsOrphan, Owned, Live;
    var pins := multiset{FREE_MAP_SECTOR};
    RemoveKeeps(fs, name, dirOk, nodeOk, lookup, write);
    RemoveLive(fs, name, dirOk, nodeOk, lookup, write, i);
    FindsNamed(fs, name, lookup);
    InvNamesOnDisk(fs, pins);
    var fs' := Remove(fs, name, dirOk, nodeOk, lookup, write).0;
    var s := Slots(fs.disk)[i].sector;
    assert |fs'.disk| == |fs.disk| by { SameNode(fs, fs', s); }
    SizesAgree(fs, pins);
    SizesAgree(fs', pins);
    MarkedIff(fs, q);
    MarkedIff(fs', q);
    assert IsOrphan(fs', q) <==> IsOrphan(fs, q);
    if Listed(fs.open, s) {
      assert Live(Slots(fs'.disk), fs'.open) == Live(Slots(fs.disk), fs.open);
      OwnedAlike(fs, fs', q);
    } else {
      OwnedWithout(fs, fs', Live(Slots(fs'.disk), fs'.open), s, q);
    }
  }

  // ----------------------------------------------------------------- creation

  /** The lowest sector not marked used. */
  ghost predicate LowestFree(used: seq<bool>, s: nat) {
    s < |used| && !used[s] && forall q :: 0 <= q < s ==> used[q]
  }

  /** `k` sectors in a row are free, none of them sector `s`. */
  ghost predicate RunFree(used: seq<bool>, s: nat, k: nat) {
    exists p: nat :: RunAt(used, s, k, p)
  }

  predicate RunAt(used: seq<bool>, s: nat, k: nat, p: nat) {
    p + k <= |used| && !(p <= s < p + k) && forall q :: p <= q < p + k ==> !used[q]
  }

  /** Memory suffices, and besides a sector for the inode there is a run of sectors for the data. */
  ghost predicate HasRoom(used: seq<bool>, length: nat, o: Outcomes) {
    && o.dir && o.mark && o.node && o.data
    && exists s: nat :: LowestFree(used, s) && RunFree(used, s, (length + 511) / 512)
  }

  /** The name is sound, is not among the entries read, and there is an entry to write it to. */
  ghost predicate CanName(es: seq<Entry>, name: Name, o: Outcomes) {
    && 1 <= |name| <= 14 && o.write
    && (forall i: nat :: !Names(es, name, o.lookup, i))
    && (o.scan < |es| || exists i :: 0 <= i < |es| && !es[i].inUse)
  }

  lemma ReachesIff(fs: Fs, length: nat, o: Outcomes)
    ensures Reaches(fs, length, o) <==> HasRoom(fs.used, length, o)
  {
    if exists s: nat :: LowestFree(fs.used, s) {
      var s: nat :| LowestFree(fs.used, s);
      assert AllAre(fs.used, s, 1, false);
      assert Scan(fs.used, 0, 1, false) == Some(s) by {
        var t := Scan(fs.used, 0, 1, false).value;
        assert !fs.used[t];
      }
      RunIff(fs.used, s, Sectors(length));
    } else if Scan(fs.used, 0, 1, false).Some? {
      var s := Scan(fs.used, 0, 1, false).value;
      forall q | 0 <= q < s ensures fs.used[q] { assert !AllAre(fs.used, q, 1, false); }
      assert LowestFree(fs.used, s);
    }
  }

  lemma RunIff(used: seq<bool>, s: nat, k: nat)
    requires s < |used|
    ensures Scan(SetRange(used, s, 1, true), 0, k, false).Some? <==> RunFree(used, s, k)
  {
    hide RunAt, SetRange, AllAre;
    forall p: nat ensures RunAt(used, s, k, p) <==> AllAre(SetRange(used, s, 1, true), p, k, false) {
      RunOfMarked(used, s, k, p);
    }
    var r := Scan(SetRange(used, s, 1, true), 0, k, false);
    if r.Some? { assert RunAt(used, s, k, r.value); }
  }

  lemma RunOfMarked(used: seq<bool>, s: nat, k: nat, p: nat)
    requires s < |used|
    ensures RunAt(used, s, k, p) <==> AllAre(SetRange(used, s, 1, true), p, k, false)
  {
    var b := SetRange(used, s, 1, true);
    assert b[s];
    if AllAre(b, p, k, false) {
      forall q | p <= q < p + k ensures !used[q] { assert !b[q]; }
    }
  }

  lemma AddsIff(es: seq<Entry>, name: Name, o: Outcomes)
    ensures Adds(es, name, o) <==> CanName(es, name, o)
  {
    var seen := Seen(es, o.lookup);
    var found := Find(seen, name, 0);
    if found.Some? { assert Names(es, name, o.lookup, found.value); }
    if exists i: nat :: Names(es, name, o.lookup, i) {
      var i: nat :| Names(es, name, o.lookup, i);
      assert seen[i] == es[i];
    }
    if i :| 0 <= i < |es| && !es[i].inUse {
      assert StopAt(es, o.scan) <= i;
    }
  }

  /** `filesys_create` succeeds exactly if there is room for the file and the directory takes the name. */
  lemma CreateSucceedsIff(fs: Fs, name: Name, length: nat, o: Outcomes)
    requires Inv(fs) && length <= MAX_SIZE && 0 !in name
    ensures RootOk(fs.disk) && |fs.used| == |fs.disk|
    ensures Create(fs, name, length, o).1 <==> HasRoom(fs.used, length, o) && CanName(Slots(fs.disk), name, o)
  {
    hide DirOk, OpenOk, CopyOk, RemovedOk, NamedSet, OpenSet, Slots, RootOk, SpaceOk, Create, Reaches, Adds, HasRoom,
         CanName;
    SizesAgree(fs, multiset{FREE_MAP_SECTOR});
    ReachesIff(fs, length, o);
    AddsIff(Slots(fs.disk), name, o);
    if Reaches(fs, length, o) && Adds(Slots(fs.disk), name, o) {
      InvIsSane(fs);
      CreateOk(fs, name, length, o);
    } else {
      CreateAccounts(fs, name, length, o, 0);
    }
  }

  // ------------------------------------------------------------------ denying

  /** From `file_deny_write` on no file on that inode takes a byte. */
  lemma DenyStopsWrites(fs: Fs, h: nat, g: nat, b: seq<byte>, bounce: bool)
    requires Inv(fs) && IsFile(fs, h) && IsFile(fs, g) && fs.files[g].value.sector == fs.files[h].value.sector
    ensures IsFile(Deny(fs, h), g) && Sane(Deny(fs, h))
    ensures Write(Deny(fs, h), g, b, bounce).1 == 0
  {
    hide InvWith, Deny, Write, Sane;
    DenialKeeps(fs, multiset{FREE_MAP_SECTOR}, h, true);
    var fs' := Deny(fs, h);
    assert fs'.files[h].value.deny && fs'.files[h].value.sector == fs'.files[g].value.sector;
    WriteKeeps(fs', g, b, bounce);
  }

  /** Once its only denier allows writes again, a file takes all the bytes that lie within it. */
  lemma AllowLetsWrite(fs: Fs, h: nat, g: nat, b: seq<byte>, bounce: bool)
    requires Inv(fs) && IsFile(fs, h) && IsFile(fs, g) && fs.files[g].value.sector == fs.files[h].value.sector
    requires forall k: nat :: IsFile(fs, k) && k != h && fs.files[k].value.deny ==>
               fs.files[k].value.sector != fs.files[h].value.sector
    ensures IsFile(Allow(fs, h), g) && Sane(Allow(fs, h)) && fs.files[g].value.sector < |fs.disk|
    ensures Write(Allow(fs, h), g, b, bounce).1 ==
              Due(NodeAt(fs.disk, fs.files[g].value.sector).length, |b|, fs.files[g].value.pos, bounce)
  {
    hide InvWith, Allow, Write, Sane, Due, NodeAt;
    DenialKeeps(fs, multiset{FREE_MAP_SECTOR}, h, false);
    var fs' := Allow(fs, h);
    FileIsOpen(fs, multiset{FREE_MAP_SECTOR}, g);
    assert !Denies(fs'.files, fs.files[g].value.sector) by {
      forall k: nat | IsFile(fs', k) && fs'.files[k].value.deny
        ensures fs'.files[k].value.sector != fs.files[g].value.sector
      {
        assert IsFile(fs, k);
      }
    }
    WriteKeeps(fs', g, b, bounce);
  }
}
