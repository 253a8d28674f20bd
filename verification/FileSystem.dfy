/**
 The loops and updates of filesys/inode.c, free-map.c, directory.c and filesys.c on mutable
 state; each method is proved against the function of the same name in the state machine.
 */
module FileSystem {
  import opened Base
  import opened Disk
  import opened DiskFormat
  import opened Bits
  import FS = FileSys
  import Calls = FileCalls
  import Outcomes = FileOutcomes
  import Runs = FileRuns

  /** Entry `i` of a directory, as bytes of its file. */
  lemma EntryBytes(d: Image, root: Node, i: nat)
    requires OnDisk(d, root) && root.length == FS.DIR_ENTRIES * ENTRY_SIZE && i < FS.DIR_ENTRIES
    ensures root.start < |d|
    ensures Contents(d, root)[i * ENTRY_SIZE..(i + 1) * ENTRY_SIZE] == FS.SlotBytes(d, root.start, i)
  {
    forall k | 0 <= k < ENTRY_SIZE ensures Contents(d, root)[i * ENTRY_SIZE + k] == FS.SlotBytes(d, root.start, i)[k] {
      assert (root.start * SECTOR_SIZE + i * ENTRY_SIZE + k) / SECTOR_SIZE == root.start;
    }
  }

  /**
   The data of every open inode lies on the disk, and the sectors of a removed one are marked, so that it can be freed.
   */
  ghost predicate NodesFit(open: seq<FS.OpenInode>, d: Image, used: seq<bool>) {
    forall j :: 0 <= j < |open| ==> OnDisk(d, open[j].node) && (open[j].removed ==> Marked(open[j], used))
  }

  ghost predicate Marked(x: FS.OpenInode, used: seq<bool>) {
    && AllAre(used, x.sector, 1, true) && AllAre(used, x.node.start, Sectors(x.node.length), true)
    && !Calls.DataOf(x.node, x.sector)
  }

  lemma InvNodesFit(fs: FS.Fs, pins: multiset<nat>)
    requires FS.InvWith(fs, pins)
    ensures NodesFit(fs.open, fs.disk, fs.used)
  {
    hide FS.Slots, FS.DirOk, FS.OpenOk, FS.RemovedOk, FS.NamedSet, FS.OpenSet;
    forall j | 0 <= j < |fs.open| ensures OnDisk(fs.disk, fs.open[j].node) && Marked(fs.open[j], fs.used) {
      FS.InOpenSet(fs.open, j);
      var s := fs.open[j].sector;
      assert s in FS.Live(FS.Slots(fs.disk), fs.open) && FS.Owns(fs.disk, s, s);
      forall q: nat | Calls.DataOf(fs.open[j].node, q)
        ensures q < |fs.used| && fs.used[q] { assert FS.Owns(fs.disk, s, q); }
    }
  }

  /** More marks and other bytes do not matter. */
  lemma StillFit(open: seq<FS.OpenInode>, d: Image, d': Image, used: seq<bool>, used': seq<bool>)
    requires NodesFit(open, d, used) && |d'| == |d| && |used'| == |used|
    requires forall q :: 0 <= q < |used| && used[q] ==> used'[q]
    ensures NodesFit(open, d', used')
  {
  }

  /** The copy of the root directory's inode is right. */
  lemma RootCopy(fs: FS.Fs, pins: multiset<nat>)
    requires FS.InvWith(fs, pins) && FS.IsOpen(fs.open, FS.ROOT_DIR_SECTOR)
    ensures var root := fs.open[FS.FindOpen(fs.open, FS.ROOT_DIR_SECTOR, 0).value].node;
            root.start == FS.RootData(fs.disk) && root.length == FS.DIR_ENTRIES * ENTRY_SIZE && OnDisk(fs.disk, root)
  {
    InvNodesFit(fs, pins);
  }

  /** `inode_create` takes no marks away. */
  lemma KeepsMarks(fs: FS.Fs, s: nat, length: nat, ok: bool)
    requires s < |fs.disk|
    ensures forall q :: 0 <= q < |fs.used| && fs.used[q] ==> FS.InodeCreate(fs, s, length, ok).0.used[q]
  {
  }

  lemma FoundSlot(es: seq<Entry>, name: Name, n: nat)
    requires FS.Find(FS.Seen(es, n), name, 0).Some?
    ensures var i := FS.Find(FS.Seen(es, n), name, 0).value; i < |es| && es[i].inUse && es[i].name == name
  {
  }

  lemma EntryIs(d: Image, r: nat, i: nat)
    requires r < |d| && i < FS.DIR_ENTRIES
    ensures FS.Entries(d, r)[i] == EntryOf(FS.SlotBytes(d, r, i))
  {
  }

  /** An entry is written whole or not at all. */
  lemma EntryTransfer(root: Node, i: nat, bounce: bool)
    requires root.length == FS.DIR_ENTRIES * ENTRY_SIZE && i <= FS.DIR_ENTRIES
    ensures Transfer(root, ENTRY_SIZE, i * ENTRY_SIZE, bounce) == if i < FS.DIR_ENTRIES && bounce then ENTRY_SIZE else 0
  {
  }

  class Volume {
    const freeMap: Bitmap
    var disk: Image
    var open: seq<FS.OpenInode>
    var files: seq<Option<FS.File>>

    ghost predicate Valid()
      reads this, freeMap
    {
      freeMap.Valid() && freeMap.bitCnt == |disk|
    }

    ghost function Now(): FS.Fs
      requires Valid()
      reads this, freeMap, freeMap.bits
    {
      FS.Fs(freeMap.Value(), disk, open, files)
    }

    /** `inode_init` and `free_map_init`: only the two reserved sectors are marked. */
    constructor (d: Image)
      requires |d| >= 2
      ensures Valid() && fresh(freeMap) && fresh(freeMap.bits)
      ensures Now() == FS.Fs(SetRange(seq(|d|, _ => false), 0, 2, true), d, [], [])
    {
      freeMap := new Bitmap(|d|);
      disk, open, files := d, [], [];
      new;
      freeMap.Mark(FS.FREE_MAP_SECTOR);
      freeMap.Mark(FS.ROOT_DIR_SECTOR);
      assert freeMap.Value() == SetRange(seq(|d|, _ => false), 0, 2, true);
    }

    /**
     `free_map_allocate`; `written` says whether the map can be written to its file, and if not the sectors are given
     back.
     */
    method FreeMapAllocate(cnt: nat, written: bool) returns (sector: Option<nat>)
      requires Valid()
      modifies freeMap.bits
      ensures Valid() && sector == if written then Scan(old(Now()).used, 0, cnt, false) else None
      ensures Now() == old(Now()).(used := if sector.Some? then SetRange(old(Now()).used, sector.value, cnt, true)
              else old(Now()).used)
    {
      sector := freeMap.ScanAndFlip(0, cnt, false);
      if sector.Some? && !written {
        freeMap.SetMultiple(sector.value, cnt, false);
        assert Now().used == old(Now()).used;
        sector := None;
      }
    }

    /** `free_map_release`: the sectors were all marked. */
    method FreeMapRelease(sector: nat, cnt: nat)
      requires Valid() && AllAre(Now().used, sector, cnt, true)
      modifies freeMap.bits
      ensures Valid() && Now() == old(Now()).(used := SetRange(old(Now()).used, sector, cnt, false))
    {
      freeMap.SetMultiple(sector, cnt, false);
    }

    /** `inode_create`. */
    method InodeCreate(s: nat, length: nat, ok: bool, written: bool) returns (success: bool)
      requires Valid() && s < |disk|
      modifies this`disk, freeMap.bits
      ensures Valid() && (Now(), success) == FS.InodeCreate(old(Now()), s, length, ok && written)
    {
      if !ok { return false; }
      var sectors := Sectors(length);
      var start := FreeMapAllocate(sectors, written);
      if start.None? { return false; }
      disk := disk[s := NodeSector(Node(start.value, length))];
      ghost var before := disk;
      for i := 0 to sectors
        invariant |disk| == |before| && Valid() && disk == FS.ZeroSectors(before, start.value, i)
        invariant Now() == old(Now()).(used := SetRange(old(Now()).used, start.value, sectors, true), disk := disk)
      {
        disk := disk[start.value + i := Zeros(SECTOR_SIZE)];
      }
      success := true;
    }

    method FindInode(s: nat) returns (j: Option<nat>)
      ensures j == FS.FindOpen(open, s, 0)
    {
      var i := 0;
      while i < |open|
        invariant i <= |open| && FS.FindOpen(open, s, 0) == FS.FindOpen(open, s, i)
      {
        if open[i].sector == s { return Some(i); }
        i := i + 1;
      }
      return None;
    }

    /** `inode_open` and `inode_reopen`. */
    method InodeOpen(s: nat, ok: bool) returns (success: bool)
      requires Valid() && s < |disk|
      modifies this`open
      ensures Valid() && (Now(), success) == FS.InodeOpen(old(Now()), s, ok)
    {
      var j := FindInode(s);
      if j.Some? {
        open := open[j.value := open[j.value].(cnt := open[j.value].cnt + 1)];
        return true;
      }
      if !ok { return false; }
      open := [FS.OpenInode(s, 1, false, 0, NodeOf(disk[s]))] + open;
      success := true;
    }

    /** `inode_close`. */
    method InodeClose(s: nat)
      requires Valid() && s < |disk|
      requires NodesFit(open, disk, Now().used)
      modifies this`open, freeMap.bits
      ensures Valid() && Now() == FS.InodeClose(old(Now()), s)
    {
      var j := FindInode(s);
      if j.None? { return; }
      var x := open[j.value];
      if x.cnt > 1 {
        open := open[j.value := x.(cnt := x.cnt - 1)];
      } else {
        open := open[..j.value] + open[j.value + 1..];
        if x.removed {
          FreeMapRelease(s, 1);
          FreeMapRelease(x.node.start, Sectors(x.node.length));
        }
      }
    }

    /** `inode_remove`. */
    method InodeRemove(s: nat)
      requires Valid()
      modifies this`open
      ensures Valid() && Now() == Runs.MarkRemoved(old(Now()), s)
    {
      var j := FindInode(s);
      if j.Some? {
        open := open[j.value := open[j.value].(removed := true)];
      }
    }

    /**
     `inode_write_at` while writes are allowed.  Parts of a sector go through the bounce buffer, which is
     read first; `bounce` says whether memory for it is available.
     */
    method InodeWriteAt(node: Node, buffer: seq<byte>, offset0: nat, bounce: bool) returns (written: nat)
      requires Valid() && OnDisk(disk, node)
      modifies this`disk
      ensures Valid() && written == Transfer(node, |buffer|, offset0, bounce)
      ensures disk == Patch(old(disk), node.start * SECTOR_SIZE + offset0, buffer[..written])
    {
      hide Whole, Transfer, Chunk, Patch;
      written := 0;
      var size, offset := |buffer|, offset0;
      WholeMore(0, offset0, bounce, 0);
      ghost var base := node.start * SECTOR_SIZE + offset0;
      PatchNothing(disk, base);
      while size > 0
        invariant size == |buffer| - written && offset == offset0 + written && written <= Count(node, |buffer|, offset0)
        invariant |disk| == |old(disk)| && disk == Patch(old(disk), base, buffer[..written])
        invariant Whole(written, offset0, bounce)
      {
        var chunk := Chunk(node, size, offset);
        if chunk <= 0 || (!(offset % SECTOR_SIZE == 0 && chunk == SECTOR_SIZE) && !bounce) {
          TransferStops(node, |buffer|, offset0, bounce, written);
          return;
        }
        WholeMore(written, offset0, bounce, chunk);
        WriteChunk(node, offset, buffer[written..written + chunk]);
        PatchTwice(old(disk), base, buffer[..written], buffer[written..written + chunk]);
        assert buffer[..written] + buffer[written..written + chunk] == buffer[..written + chunk];
        size, offset, written := size - chunk, offset + chunk, written + chunk;
      }
      TransferStops(node, |buffer|, offset0, bounce, written);
    }

    /** One turn of the loop of `inode_write_at`. */
    method WriteChunk(node: Node, offset: nat, chunk: seq<byte>)
      requires OnDisk(disk, node) && offset < node.length && chunk != []
      requires offset % SECTOR_SIZE + |chunk| <= SECTOR_SIZE
      modifies this`disk
      ensures disk == Patch(old(disk), node.start * SECTOR_SIZE + offset, chunk)
    {
      ByteToSector(disk, node, offset);
      var sector, ofs := node.start + offset / SECTOR_SIZE, offset % SECTOR_SIZE;
      var out: Sector := disk[sector];
      if ofs == 0 && |chunk| == SECTOR_SIZE {
        out := chunk;
      } else {
        out := out[..ofs] + chunk + out[ofs + |chunk|..];
      }
      SectorIsPatch(disk, sector, ofs, chunk, out);
      disk := disk[sector := out];
    }

    /** Reads entry `i` of a directory; short at the end of the file, and without a bounce buffer. */
    method ReadEntry(root: Node, i: nat, bounce: bool) returns (b: seq<byte>)
      requires OnDisk(disk, root) && root.length == FS.DIR_ENTRIES * ENTRY_SIZE && i <= FS.DIR_ENTRIES
      ensures root.start < |disk| && b == if i < FS.DIR_ENTRIES && bounce then FS.SlotBytes(disk, root.start, i) else []
    {
      b := InodeReadAt(disk, root, ENTRY_SIZE, i * ENTRY_SIZE, bounce);
      if i < FS.DIR_ENTRIES { EntryBytes(disk, root, i); }
    }

    /** `lookup`, which can read `n` entries: where the name is, and the entry. */
    method Lookup(root: Node, name: Name, n: nat) returns (slot: Option<nat>, b: seq<byte>)
      requires OnDisk(disk, root) && root.length == FS.DIR_ENTRIES * ENTRY_SIZE
      ensures root.start < |disk| && slot == FS.Find(FS.Seen(FS.Entries(disk, root.start), n), name, 0)
      ensures slot.Some? ==> slot.value < FS.DIR_ENTRIES && b == FS.SlotBytes(disk, root.start, slot.value)
    {
      hide FS.Entries, FS.SlotBytes, EntryOf;
      var i := 0;
      b := ReadEntry(root, i, i < n);
      ghost var es := FS.Entries(disk, root.start);
      ghost var seen := FS.Seen(es, n);
      while |b| == ENTRY_SIZE
        invariant i <= |seen| && b == if i < |seen| then FS.SlotBytes(disk, root.start, i) else []
        invariant FS.Find(seen, name, 0) == FS.Find(seen, name, i)
        decreases |seen| - i
      {
        var e := EntryOf(b);
        EntryIs(disk, root.start, i);
        if e.inUse && e.name == name { return Some(i), b; }
        i := i + 1;
        b := ReadEntry(root, i, i < n);
      }
      return None, b;
    }

    /** The search of `dir_add` for an entry that is not in use: where it stops, and the last entry it has read. */
    method FindFree(root: Node, o: FS.Outcomes) returns (i: nat, last: seq<byte>)
      requires OnDisk(disk, root) && root.length == FS.DIR_ENTRIES * ENTRY_SIZE
      ensures root.start < |disk| && i == FS.StopAt(FS.Entries(disk, root.start), o.scan)
      ensures last == FS.LastRead(disk, root.start, o)
    {
      hide FS.Entries, FS.SlotBytes, EntryOf;
      i := 0;
      last := if |o.stale| == ENTRY_SIZE then o.stale else Zeros(ENTRY_SIZE);
      var b := ReadEntry(root, i, i < o.scan);
      ghost var es := FS.Entries(disk, root.start);
      ghost var seen := FS.Seen(es, o.scan);
      while |b| == ENTRY_SIZE
        invariant i <= |seen| && b == if i < |seen| then FS.SlotBytes(disk, root.start, i) else []
        invariant FS.FreeSlot(seen, 0) == FS.FreeSlot(seen, i)
        invariant last == if i > 0 then FS.SlotBytes(disk, root.start, i - 1)
                  else if |o.stale| == ENTRY_SIZE then o.stale else Zeros(ENTRY_SIZE)
        decreases |seen| - i
      {
        last := b;
        EntryIs(disk, root.start, i);
        if !EntryOf(b).inUse { return; }
        i := i + 1;
        b := ReadEntry(root, i, i < o.scan);
      }
    }

    /** `dir_add`. */
    method DirAdd(root: Node, name: Name, sector: nat, o: FS.Outcomes) returns (success: bool)
      requires Valid() && OnDisk(disk, root) && root.length == FS.DIR_ENTRIES * ENTRY_SIZE
      modifies this`disk
      ensures Valid() && root.start < |old(disk)|
      ensures (disk, success) == FS.DirAdd(old(disk), root.start, name, sector, o)
    {
      hide FS.Entries, FS.StopAt, FS.LastRead, AddedEntry, Patch, Transfer;
      if name == [] || |name| > NAME_MAX { return false; }
      var used, _ := Lookup(root, name, o.lookup);
      if used.Some? { return false; }
      var i, b := FindFree(root, o);
      var e := AddedEntry(b, name, sector);
      var n := InodeWriteAt(root, e, i * ENTRY_SIZE, o.write);
      EntryTransfer(root, i, o.write);
      success := n == ENTRY_SIZE;
      assert success ==> e[..n] == e;
      if !success { PatchNothing(old(disk), root.start * SECTOR_SIZE + i * ENTRY_SIZE); }
    }

    method RootNode() returns (root: Node)
      requires Valid() && FS.IsOpen(open, FS.ROOT_DIR_SECTOR)
      ensures root == open[FS.FindOpen(open, FS.ROOT_DIR_SECTOR, 0).value].node
    {
      var j := FindInode(FS.ROOT_DIR_SECTOR);
      root := open[j.value].node;
    }

    /** The part of `filesys_create` between opening and closing the root directory. */
    method CreateIn(root: Node, name: Name, length: nat, o: FS.Outcomes, ghost pins: multiset<nat>)
      returns (success: bool)
      requires Valid() && FS.InvWith(Now(), pins) && length <= Calls.MAX_SIZE && 0 !in name
      requires root.start == FS.RootData(disk) && root.length == FS.DIR_ENTRIES * ENTRY_SIZE && OnDisk(disk, root)
      modifies this`disk, freeMap.bits
      ensures Valid() && NodesFit(open, disk, Now().used)
      ensures (Now(), success) == match if o.mark then Scan(old(Now()).used, 0, 1, false) else None
                case None => (old(Now()), false)
                case Some(s) => Calls.CreateAt(old(Now()).(used := SetRange(old(Now()).used, s, 1, true)), root.start,
                  s, name, length, o)
    {
      hide FS.InvWith, FS.DirAdd, FS.InodeCreate, FS.Slots, NodesFit;
      InvNodesFit(Now(), pins);
      ghost var f0 := Now();
      var sector := FreeMapAllocate(1, o.mark);
      if sector.None? { return false; }
      var s := sector.value;
      ghost var f1 := Now();
      success := InodeCreate(s, length, o.node, o.data);
      KeepsMarks(f1, s, length, o.Inode());
      if success {
        success := DirAdd(root, name, s, o);
      }
      if !success && s != 0 {
        FreeMapRelease(s, 1);
      }
      StillFit(open, f0.disk, disk, f0.used, Now().used);
    }

    /**
     `filesys_create`, which keeps the invariant exactly if no scan of the directory is cut short in a way that breaks
     it.
     */
    method FilesysCreate(name: Name, length: nat, o: FS.Outcomes) returns (success: bool)
      requires Valid() && FS.Inv(Now()) && length <= Calls.MAX_SIZE && 0 !in name
      modifies this`disk, this`open, freeMap.bits
      ensures Valid() && FS.RootOk(old(disk)) && (Now(), success) == Calls.Create(old(Now()), name, length, o)
      ensures FS.Inv(Now()) <==> !Calls.CreateBreaks(old(Now()), name, length, o)
      ensures success <==> Outcomes.HasRoom(old(Now().used), length, o) &&
                           Outcomes.CanName(FS.Slots(old(disk)), name, o)
    {
      hide FS.InvWith, FS.InodeOpen, FS.InodeClose, Calls.CreateAt, Calls.CreateBreaks, NodesFit, Outcomes.HasRoom,
           Outcomes.CanName;
      Outcomes.CreateSucceedsIff(Now(), name, length, o);
      Calls.SizesAgree(Now(), multiset{FS.FREE_MAP_SECTOR});
      Calls.CreateKeepsIff(Now(), name, length, o);
      if !o.dir { return false; }
      ghost var pins := multiset{FS.FREE_MAP_SECTOR} + multiset{FS.ROOT_DIR_SECTOR};
      FS.InodeOpenKeeps(Now(), FS.ROOT_DIR_SECTOR, true, multiset{FS.FREE_MAP_SECTOR});
      var _ := InodeOpen(FS.ROOT_DIR_SECTOR, true);
      var root := RootNode();
      RootCopy(Now(), pins);
      success := CreateIn(root, name, length, o, pins);
      InodeClose(FS.ROOT_DIR_SECTOR);
    }

    /** The part of `dir_remove` after the entry and its inode have been found. */
    method UnlinkSlot(root: Node, i: nat, b: seq<byte>, s: nat, write: bool) returns (success: bool)
      requires Valid() && i < FS.DIR_ENTRIES && OnDisk(disk, root) && root.length == FS.DIR_ENTRIES * ENTRY_SIZE
      requires root.start < |disk| && b == FS.SlotBytes(disk, root.start, i)
      modifies this`disk, this`open
      ensures Valid() && success == write
      ensures Now() == if write then Runs.Unlink(old(Now()), root.start, i, s) else old(Now())
    {
      hide Patch, Transfer, ErasedEntry;
      var e := ErasedEntry(b);
      var n := InodeWriteAt(root, e, i * ENTRY_SIZE, write);
      EntryTransfer(root, i, write);
      if n != ENTRY_SIZE {
        PatchNothing(old(disk), root.start * SECTOR_SIZE + i * ENTRY_SIZE);
        return false;
      }
      assert e[..n] == e;
      InodeRemove(s);
      success := true;
    }

    /** `filesys_remove`. */
    method FilesysRemove(name: Name, dirOk: bool, nodeOk: bool, lookup: nat, write: bool) returns (success: bool)
      requires Valid() && FS.Inv(Now())
      modifies this`disk, this`open, freeMap.bits
      ensures Valid() && FS.Inv(Now())
      ensures FS.RootOk(old(disk)) && Runs.NamesOnDisk(old(disk))
      ensures (Now(), success) == Runs.Remove(old(Now()), name, dirOk, nodeOk, lookup, write)
      ensures success <==> dirOk && write && Runs.Reachable(old(Now()), name, nodeOk, lookup)
    {
      hide FS.InvWith, FS.InodeOpen, FS.InodeClose, Runs.Unlink, FS.Entries, FS.Find, FS.Seen, NodesFit, EntryOf,
           Calls.KeepsUsed, Calls.SameOrphans, Runs.Reachable, FS.SlotBytes, FS.NodeAt;
      ghost var one := multiset{FS.FREE_MAP_SECTOR};
      Calls.SizesAgree(Now(), one);
      Runs.InvNamesOnDisk(Now(), one);
      Runs.RemoveSucceedsIff(Now(), name, dirOk, nodeOk, lookup, write);
      if !dirOk { return false; }
      ghost var pins := one + multiset{FS.ROOT_DIR_SECTOR};
      FS.InodeOpenKeeps(Now(), FS.ROOT_DIR_SECTOR, true, one);
      var _ := InodeOpen(FS.ROOT_DIR_SECTOR, true);
      var root := RootNode();
      RootCopy(Now(), pins);
      assert pins - multiset{FS.ROOT_DIR_SECTOR} == one;
      var slot, b := Lookup(root, name, lookup);
      success := false;
      if slot.Some? {
        Runs.SlotIs(disk, slot.value);
        FoundSlot(FS.Slots(disk), name, lookup);
        var s := EntryOf(b).sector;
        FS.InodeOpenKeeps(Now(), s, nodeOk, pins);
        success := InodeOpen(s, nodeOk);
        if success {
          Runs.UnlinkKeeps(Now(), pins + multiset{s}, slot.value);
          success := UnlinkSlot(root, slot.value, b, s, write);
          InvNodesFit(Now(), pins + multiset{s});
          FS.InodeCloseKeeps(Now(), s, pins + multiset{s});
          InodeClose(s);
          assert pins + multiset{s} - multiset{s} == pins;
        }
      }
      InvNodesFit(Now(), pins);
      FS.InodeCloseKeeps(Now(), FS.ROOT_DIR_SECTOR, pins);
      InodeClose(FS.ROOT_DIR_SECTOR);
    }

    /** `filesys_open`. */
    method FilesysOpen(name: Name, dirOk: bool, nodeOk: bool, fileOk: bool, lookup: nat) returns (h: Option<nat>)
      requires Valid() && FS.Inv(Now())
      modifies this`open, this`files, freeMap.bits
      ensures Valid() && FS.Inv(Now())
      ensures FS.RootOk(old(disk)) && Runs.NamesOnDisk(old(disk))
      ensures (Now(), h) == Runs.Open(old(Now()), name, dirOk, nodeOk, fileOk, lookup)
      ensures h.Some? <==> dirOk && fileOk && Runs.Reachable(old(Now()), name, nodeOk, lookup)
    {
      hide FS.InvWith, FS.InodeOpen, FS.InodeClose, FS.Entries, Calls.SameOrphans, EntryOf, FS.Find, FS.Seen, NodesFit,
           Runs.Reachable;
      ghost var one := multiset{FS.FREE_MAP_SECTOR};
      Calls.SizesAgree(Now(), one);
      Runs.InvNamesOnDisk(Now(), one);
      Runs.OpenKeeps(Now(), name, dirOk, nodeOk, fileOk, lookup);
      if !dirOk { return None; }
      ghost var pins := one + multiset{FS.ROOT_DIR_SECTOR};
      FS.InodeOpenKeeps(Now(), FS.ROOT_DIR_SECTOR, true, one);
      var _ := InodeOpen(FS.ROOT_DIR_SECTOR, true);
      var root := RootNode();
      RootCopy(Now(), pins);
      assert pins - multiset{FS.ROOT_DIR_SECTOR} == one;
      var slot, b := Lookup(root, name, lookup);
      var got, s := false, 0;
      if slot.Some? {
        Runs.SlotIs(disk, slot.value);
        FoundSlot(FS.Slots(disk), name, lookup);
        s := EntryOf(b).sector;
        FS.InodeOpenKeeps(Now(), s, nodeOk, pins);
        got := InodeOpen(s, nodeOk);
        if got { pins := pins + multiset{s}; }
      }
      InvNodesFit(Now(), pins);
      FS.InodeCloseKeeps(Now(), FS.ROOT_DIR_SECTOR, pins);
      InodeClose(FS.ROOT_DIR_SECTOR);
      h := None;
      if got {
        if fileOk {
          h := Some(|files|);
          files := files + [Some(FS.File(s, 0, false))];
        } else {
          InvNodesFit(Now(), pins - multiset{FS.ROOT_DIR_SECTOR});
          InodeClose(s);
        }
      }
    }
  }
}
