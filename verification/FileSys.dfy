/**
 The file system as a state machine: the free map (filesys/free-map.c), open inodes
 (filesys/inode.c), the root directory (filesys/directory.c), files (filesys/file.c) and the
 calls of filesys/filesys.c.
 */
module FileSys {
  import opened Base
  import opened Disk
  import opened DiskFormat
  import opened Bits

  const FREE_MAP_SECTOR: nat := 0
  const ROOT_DIR_SECTOR: nat := 1
  const DIR_ENTRIES: nat := 16

  /** `struct inode`, an entry of the list of open inodes. */
  datatype OpenInode = OpenInode(sector: nat, cnt: nat, removed: bool, denied: nat, node: Node)

  /** `struct file`, one opener of an inode. */
  datatype File = File(sector: nat, pos: nat, deny: bool)

  datatype Fs = Fs(
    used: seq<bool>,              // the free map
    disk: Image,
    open: seq<OpenInode>,         // open_inodes
    files: seq<Option<File>>)     // every file opened so far, None once closed

  // ---------------------------------------------------------------- directory

  function NodeAt(d: Image, s: nat): Node
    requires s < |d|
  {
    NodeOf(d[s])
  }

  /** The root directory's inode: sixteen entries, which fill less than one sector. */
  predicate RootOk(d: Image) {
    |d| >= 2 && NodeAt(d, ROOT_DIR_SECTOR).length == DIR_ENTRIES * ENTRY_SIZE && NodeAt(d, ROOT_DIR_SECTOR).start < |d|
  }

  function RootData(d: Image): (s: nat)
    requires RootOk(d)
  {
    NodeAt(d, ROOT_DIR_SECTOR).start
  }

  // The entries kept in sector `r`.

  function SlotBytes(d: Image, r: nat, i: nat): (b: seq<byte>)
    requires r < |d| && i < DIR_ENTRIES
    ensures |b| == ENTRY_SIZE
  {
    d[r][i * ENTRY_SIZE..(i + 1) * ENTRY_SIZE]
  }

  function Entries(d: Image, r: nat): (es: seq<Entry>)
    requires r < |d|
    ensures |es| == DIR_ENTRIES
  {
    seq(DIR_ENTRIES, i requires 0 <= i < DIR_ENTRIES => EntryOf(SlotBytes(d, r, i)))
  }

  function Slots(d: Image): (es: seq<Entry>)
    requires RootOk(d)
    ensures |es| == DIR_ENTRIES
  {
    Entries(d, RootData(d))
  }

  /** `lookup`: the first entry in use with the given name. */
  function Find(es: seq<Entry>, name: Name, i: nat): (r: Option<nat>)
    requires i <= |es|
    ensures r.Some? ==> i <= r.value < |es| && es[r.value].inUse && es[r.value].name == name
    ensures r.Some? ==> forall k :: i <= k < r.value ==> !(es[k].inUse && es[k].name == name)
    ensures r.None? ==> forall k :: i <= k < |es| ==> !(es[k].inUse && es[k].name == name)
    decreases |es| - i
  {
    if i == |es| then None else if es[i].inUse && es[i].name == name then Some(i) else Find(es, name, i + 1)
  }

  function FreeSlot(es: seq<Entry>, i: nat): (r: Option<nat>)
    requires i <= |es|
    ensures r.Some? ==> i <= r.value < |es| && !es[r.value].inUse && forall k :: i <= k < r.value ==> es[k].inUse
    ensures r.None? ==> forall k :: i <= k < |es| ==> es[k].inUse
    decreases |es| - i
  {
    if i == |es| then None else if !es[i].inUse then Some(i) else FreeSlot(es, i + 1)
  }

  function PutSlot(d: Image, r: nat, i: nat, b: seq<byte>): (d': Image)
    requires r < |d| && i < DIR_ENTRIES && |b| == ENTRY_SIZE
    ensures |d'| == |d|
  {
    Patch(d, r * SECTOR_SIZE + i * ENTRY_SIZE, b)
  }

  /**
   What a call of `filesys_create` gets from elsewhere: memory for the directory and for the disk inode, the two
   writes of the free map to its file, and memory for the bounce buffer.  A scan of the directory ends early if
   that memory runs out, after `lookup` or `scan` entries; a scan that could read all of them ends as it should.
   */
  datatype Outcomes = Outcomes(
    dir: bool,            // memory for `struct dir`
    mark: bool,           // the free map with the inode's sector is written
    node: bool,           // memory for the disk inode
    data: bool,           // the free map with the file's sectors is written
    lookup: nat,          // entries `lookup` can read
    scan: nat,            // entries the search for a free one can read
    write: bool,          // memory for the write of the entry
    stale: seq<byte>)     // what the entry's memory held before
  {
    predicate Inode() { node && data }
  }

  /** The entries a scan gets to see. */
  function Seen(es: seq<Entry>, n: nat): (r: seq<Entry>)
    ensures |r| == (if n < |es| then n else |es|) && forall k :: 0 <= k < |r| ==> r[k] == es[k]
  {
    if n < |es| then es[..n] else es
  }

  /** A name found by a scan cut short is the one a whole scan finds. */
  lemma SeenFinds(es: seq<Entry>, name: Name, n: nat)
    ensures Find(Seen(es, n), name, 0).Some? ==> Find(es, name, 0) == Find(Seen(es, n), name, 0)
    ensures n >= |es| ==> Find(Seen(es, n), name, 0) == Find(es, name, 0)
  {
  }

  /** Where the search of `dir_add` stops: at an entry that is not in use, at the end, or where the memory runs out. */
  function StopAt(es: seq<Entry>, n: nat): (i: nat)
    ensures i <= |es| && (forall k :: 0 <= k < i ==> es[k].inUse) && (i < |es| && es[i].inUse ==> i == n)
  {
    match FreeSlot(Seen(es, n), 0)
    case Some(i) => i
    case None => |Seen(es, n)|
  }

  /** `dir_add` gets to write an entry; a write beyond the last one comes back short, as directories do not grow. */
  predicate Adds(es: seq<Entry>, name: Name, o: Outcomes) {
    && name != [] && |name| <= NAME_MAX && Find(Seen(es, o.lookup), name, 0).None?
    && StopAt(es, o.scan) < |es| && o.write
  }

  /** The bytes over which `dir_add` writes name and sector: the last entry it has read. */
  function LastRead(d: Image, r: nat, o: Outcomes): (b: seq<byte>)
    requires r < |d|
    ensures |b| == ENTRY_SIZE
  {
    var i := StopAt(Entries(d, r), o.scan);
    if i < DIR_ENTRIES && !Entries(d, r)[i].inUse && i < o.scan then SlotBytes(d, r, i)
    else if 0 < i then SlotBytes(d, r, i - 1)
    else if |o.stale| == ENTRY_SIZE then o.stale else Zeros(ENTRY_SIZE)
  }

  /** `dir_add`. */
  function DirAdd(d: Image, r: nat, name: Name, sector: nat, o: Outcomes): (res: (Image, bool))
    requires r < |d|
    ensures |res.0| == |d| && (!res.1 ==> res.0 == d)
  {
    var es := Entries(d, r);
    if Adds(es, name, o) then (PutSlot(d, r, StopAt(es, o.scan), AddedEntry(LastRead(d, r, o), name, sector)), true)
    else (d, false)
  }

  // ------------------------------------------------------------------- inodes

  function FindOpen(open: seq<OpenInode>, s: nat, i: nat): (r: Option<nat>)
    requires i <= |open|
    ensures r.Some? ==> i <= r.value < |open| && open[r.value].sector == s
    ensures r.None? ==> forall k :: i <= k < |open| ==> open[k].sector != s
    decreases |open| - i
  {
    if i == |open| then None else if open[i].sector == s then Some(i) else FindOpen(open, s, i + 1)
  }

  /** `inode_open`; `ok` says whether memory for a new `struct inode` is available. */
  function InodeOpen(fs: Fs, s: nat, ok: bool): (r: (Fs, bool))
    requires s < |fs.disk|
    ensures r.0 == fs.(open := r.0.open) && (ok ==> r.1) && (!r.1 ==> r.0 == fs)
  {
    match FindOpen(fs.open, s, 0)
    case Some(j) => (fs.(open := fs.open[j := fs.open[j].(cnt := fs.open[j].cnt + 1)]), true)
    case None => if ok then (fs.(open := [OpenInode(s, 1, false, 0, NodeAt(fs.disk, s))] + fs.open), true)
      else (fs, false)
  }

  predicate IsOpen(open: seq<OpenInode>, s: nat) { FindOpen(open, s, 0).Some? }

  function FreeNode(used: seq<bool>, s: nat, node: Node): (r: seq<bool>)
    ensures |r| == |used|
  {
    SetRange(SetRange(used, s, 1, false), node.start, Sectors(node.length), false)
  }

  /** `inode_close`: the last opener takes the inode off the list, and frees its sectors if it was removed. */
  function InodeClose(fs: Fs, s: nat): (r: Fs)
    ensures r == fs.(open := r.open, used := r.used) && |r.used| == |fs.used|
  {
    match FindOpen(fs.open, s, 0)
    case None => fs
    case Some(j) =>
      var x := fs.open[j];
      if x.cnt > 1 then fs.(open := fs.open[j := x.(cnt := x.cnt - 1)])
      else fs.(open := fs.open[..j] + fs.open[j + 1..], used := if x.removed then FreeNode(fs.used, s, x.node)
          else fs.used)
  }

  function ZeroedIn(d: Image, q: nat, start: nat, n: nat): (s: Sector)
    requires q < |d|
  {
    if start <= q < start + n then Zeros(SECTOR_SIZE) else d[q]
  }

  function ZeroSectors(d: Image, start: nat, n: nat): (r: Image)
    ensures |r| == |d|
    ensures forall q :: 0 <= q < |d| ==> r[q] == if start <= q < start + n then Zeros(SECTOR_SIZE) else d[q]
  {
    seq(|d|, q requires 0 <= q < |d| => ZeroedIn(d, q, start, n))
  }

  /** `inode_create`: allocate the data, write the inode to sector `s` and zero the data. */
  function InodeCreate(fs: Fs, s: nat, length: nat, ok: bool): (r: (Fs, bool))
    requires s < |fs.disk|
    ensures r.0 == fs.(used := r.0.used, disk := r.0.disk) && |r.0.used| == |fs.used| && |r.0.disk| == |fs.disk|
  {
    if !ok then (fs, false)
    else match Scan(fs.used, 0, Sectors(length), false)
      case None => (fs, false)
      case Some(start) =>
        (fs.(used := SetRange(fs.used, start, Sectors(length), true),
             disk := ZeroSectors(fs.disk[s := NodeSector(Node(start, length))], start, Sectors(length))), true)
  }

  // ---------------------------------------------------------------- invariant

  /** How many open files, or open files that deny writes, an inode has. */
  function Tally(files: seq<Option<File>>, s: nat, deny: bool): (n: nat) {
    if files == [] then 0
    else Tally(files[..|files| - 1], s, deny) + if Counts(files[|files| - 1], s, deny) then 1 else 0
  }

  predicate Counts(f: Option<File>, s: nat, deny: bool) {
    f.Some? && f.value.sector == s && (deny ==> f.value.deny)
  }

  ghost function NamedSet(es: seq<Entry>): set<nat> {
    set i | 0 <= i < |es| && es[i].inUse :: es[i].sector
  }

  ghost function OpenSet(open: seq<OpenInode>): set<nat> {
    set j | 0 <= j < |open| :: open[j].sector
  }

  /** The inodes that must be kept: the free map's, the root's, the named ones and the open ones. */
  ghost function Live(es: seq<Entry>, open: seq<OpenInode>): set<nat> {
    {FREE_MAP_SECTOR, ROOT_DIR_SECTOR} + NamedSet(es) + OpenSet(open)
  }

  /** Sector `q` belongs to the file whose inode is in sector `s`. */
  predicate Owns(d: Image, s: nat, q: nat)
    requires s < |d|
  {
    q == s || NodeAt(d, s).start <= q < NodeAt(d, s).start + Sectors(NodeAt(d, s).length)
  }

  /** The sectors of live files are on the disk, marked used, and pairwise disjoint. */
  ghost predicate SpaceOk(used: seq<bool>, d: Image, live: set<nat>) {
    && |used| == |d|
    && (forall s :: s in live ==>
           s < |d| && OnDisk(d, NodeAt(d, s))
               && !(NodeAt(d, s).start <= s < NodeAt(d, s).start + Sectors(NodeAt(d, s).length)))
    && (forall s, q: nat :: s in live && Owns(d, s, q) ==> q < |used| && used[q])
    && (forall s, t, q: nat :: s in live && t in live && Owns(d, s, q) && Owns(d, t, q) ==> s == t)
  }

  ghost predicate DirOk(es: seq<Entry>) {
    && (forall i :: 0 <= i < |es| && es[i].inUse ==> es[i].sector >= 2 && es[i].name != [])
    && (forall i, j :: 0 <= i < j < |es| && es[i].inUse && es[j].inUse ==>
           es[i].name != es[j].name && es[i].sector != es[j].sector)
  }

  /** How many openers an inode has: files, and `pins` that are not files. */
  ghost function Openers(files: seq<Option<File>>, pins: multiset<nat>, s: nat): nat {
    Tally(files, s, false) + pins[s]
  }

  ghost predicate Unique(open: seq<OpenInode>) {
    forall i, j :: 0 <= i < j < |open| ==> open[i].sector != open[j].sector
  }

  ghost predicate CountOk(x: OpenInode, files: seq<Option<File>>, pins: multiset<nat>) {
    x.cnt == Openers(files, pins, x.sector) && x.cnt > 0 && x.denied == Tally(files, x.sector, true)
  }

  /** Each inode with openers is listed once and counts them. */
  ghost predicate OpenOk(open: seq<OpenInode>, files: seq<Option<File>>, pins: multiset<nat>) {
    && Unique(open)
    && (forall j :: 0 <= j < |open| ==> CountOk(open[j], files, pins))
    && (forall s :: Openers(files, pins, s) > 0 ==> s in OpenSet(open))
  }

  ghost predicate CopyOk(open: seq<OpenInode>, d: Image) {
    forall j :: 0 <= j < |open| ==> open[j].sector < |d| && open[j].node == NodeAt(d, open[j].sector)
  }

  /** An open inode is marked removed exactly if it has no name any more. */
  ghost predicate RemovedOk(open: seq<OpenInode>, es: seq<Entry>) {
    forall j :: 0 <= j < |open| ==>
      if open[j].removed then open[j].sector >= 2 && open[j].sector !in NamedSet(es)
      else open[j].sector < 2 || open[j].sector in NamedSet(es)
  }

  /** Files come from the directory, so the free map's and the root's inodes are not among theirs. */
  ghost predicate FilesOk(files: seq<Option<File>>) {
    forall h :: 0 <= h < |files| && files[h].Some? ==> files[h].value.sector >= 2
  }

  ghost predicate InvWith(fs: Fs, pins: multiset<nat>) {
    && |fs.disk| < 0x1_0000_0000 && RootOk(fs.disk) && FilesOk(fs.files)
    && DirOk(Slots(fs.disk))
    && OpenOk(fs.open, fs.files, pins)
    && CopyOk(fs.open, fs.disk)
    && RemovedOk(fs.open, Slots(fs.disk))
    && SpaceOk(fs.used, fs.disk, Live(Slots(fs.disk), fs.open))
  }

  /** Between calls only the free map's inode is open without a file. */
  ghost predicate Inv(fs: Fs) { InvWith(fs, multiset{FREE_MAP_SECTOR}) }

  // ------------------------------------------------------------- space lemmas

  lemma SpaceSub(used: seq<bool>, d: Image, live: set<nat>, live': set<nat>)
    requires SpaceOk(used, d, live) && live' <= live
    ensures SpaceOk(used, d, live')
  {
  }

  /** More sectors may be marked, and sectors of no live file may change. */
  lemma SpaceFrame(used: seq<bool>, used': seq<bool>, d: Image, d': Image, live: set<nat>)
    requires SpaceOk(used, d, live) && |used'| == |used| && |d'| == |d|
    requires forall s :: s in live ==> s < |d| && NodeAt(d', s) == NodeAt(d, s)
    requires forall s, q: nat :: s in live && Owns(d, s, q) && q < |used| && used[q] ==> used'[q]
    ensures SpaceOk(used', d', live)
  {
    assert forall s, q: nat :: s in live ==> (Owns(d', s, q) <==> Owns(d, s, q));
  }

  /** A new file whose sectors were all free. */
  lemma SpaceAdd(used: seq<bool>, used': seq<bool>, d: Image, d': Image, live: set<nat>, s: nat)
    requires SpaceOk(used, d, live) && |used'| == |used| && |d'| == |d| && s < |d|
    requires forall t :: t in live ==> t < |d| && NodeAt(d', t) == NodeAt(d, t)
    requires forall q :: 0 <= q < |used| && used[q] ==> used'[q]
    requires OnDisk(d', NodeAt(d', s))
    requires !(NodeAt(d', s).start <= s < NodeAt(d', s).start + Sectors(NodeAt(d', s).length))
    requires forall q: nat :: Owns(d', s, q) ==> q < |used| && !used[q] && used'[q]
    ensures s !in live && SpaceOk(used', d', live + {s})
  {
    assert Owns(d', s, s);
    if s in live { assert Owns(d, s, s); }
    SpaceFrame(used, used', d, d', live);
    forall t, u, q: nat | t in live + {s} && u in live + {s} && Owns(d', t, q) && Owns(d', u, q) ensures t == u {
      if t in live { assert q < |used| && used[q] by { assert Owns(d, t, q); } }
      if u in live { assert q < |used| && used[q] by { assert Owns(d, u, q); } }
    }
  }

  /** Freeing all sectors of a file that is live no longer. */
  lemma SpaceRelease(used: seq<bool>, d: Image, live: set<nat>, live': set<nat>, s: nat)
    requires SpaceOk(used, d, live) && s in live && live' <= live && s !in live'
    ensures SpaceOk(FreeNode(used, s, NodeAt(d, s)), d, live')
  {
    var used' := FreeNode(used, s, NodeAt(d, s));
    forall t, q: nat | t in live' && Owns(d, t, q) ensures q < |used'| && used'[q] {
      assert t in live && q < |used| && used[q];
      assert !Owns(d, s, q);
    }
  }

  // --------------------------------------------------------- directory lemmas

  /** The directory depends on two sectors only. */
  lemma SlotsFrame(d: Image, d': Image)
    requires RootOk(d) && |d'| == |d| && d'[ROOT_DIR_SECTOR] == d[ROOT_DIR_SECTOR] && d'[RootData(d)] == d[RootData(d)]
    ensures RootOk(d') && Slots(d') == Slots(d)
  {
    forall i | 0 <= i < DIR_ENTRIES ensures Slots(d')[i] == Slots(d)[i] {
      assert SlotBytes(d', RootData(d'), i) == SlotBytes(d, RootData(d), i);
    }
  }

  /** Writing an entry changes that entry and nothing else on the disk. */
  lemma PutSlotWrites(d: Image, i: nat, b: seq<byte>)
    requires RootOk(d) && i < DIR_ENTRIES && |b| == ENTRY_SIZE && RootData(d) != ROOT_DIR_SECTOR
    ensures var d' := PutSlot(d, RootData(d), i, b);
            && RootOk(d') && RootData(d') == RootData(d) && Slots(d') == Slots(d)[i := EntryOf(b)]
            && forall q :: 0 <= q < |d| && q != RootData(d) ==> d'[q] == d[q]
  {
    var d' := PutSlot(d, RootData(d), i, b);
    var r := RootData(d);
    var p := r * SECTOR_SIZE + i * ENTRY_SIZE;
    forall q | 0 <= q < |d| && q != r ensures d'[q] == d[q] { PatchElsewhere(d, p, b, q); }
    forall k | 0 <= k < DIR_ENTRIES ensures Slots(d')[k] == Slots(d)[i := EntryOf(b)][k] {
      PutSlotBytes(d, i, b, k);
    }
  }

  lemma PutSlotBytes(d: Image, i: nat, b: seq<byte>, k: nat)
    requires RootOk(d) && i < DIR_ENTRIES && k < DIR_ENTRIES && |b| == ENTRY_SIZE
    ensures var d' := PutSlot(d, RootData(d), i, b); var r := RootData(d);
            d'[r][k * ENTRY_SIZE..(k + 1) * ENTRY_SIZE] == if k == i then b
                else d[r][k * ENTRY_SIZE..(k + 1) * ENTRY_SIZE]
  {
    var d' := PutSlot(d, RootData(d), i, b);
    var r := RootData(d);
    forall o | 0 <= o < ENTRY_SIZE
      ensures d'[r][k * ENTRY_SIZE + o] == if k == i then b[o] else d[r][k * ENTRY_SIZE + o] { }
  }

  // ------------------------------------------------------------ tally lemmas

  lemma {:induction false} TallyUpdate(files: seq<Option<File>>, h: nat, f: Option<File>, s: nat, deny: bool)
    requires h < |files|
    ensures Tally(files[h := f], s, deny) + (if Counts(files[h], s, deny) then 1 else 0)
            == Tally(files, s, deny) + (if Counts(f, s, deny) then 1 else 0)
  {
    var last := |files| - 1;
    if h == last {
      assert files[h := f][..last] == files[..last];
    } else {
      TallyUpdate(files[..last], h, f, s, deny);
      assert files[h := f][..last] == files[..last][h := f];
    }
  }

  lemma TallyAppend(files: seq<Option<File>>, f: Option<File>, s: nat, deny: bool)
    ensures Tally(files + [f], s, deny) == Tally(files, s, deny) + if Counts(f, s, deny) then 1 else 0
  {
    assert (files + [f])[..|files|] == files;
  }

  lemma {:induction false} DenyAtMostOpen(files: seq<Option<File>>, s: nat)
    ensures Tally(files, s, true) <= Tally(files, s, false)
  {
    if files != [] { DenyAtMostOpen(files[..|files| - 1], s); }
  }

  // ----------------------------------------------------- inode_open, inode_close

  lemma OpenMember(open: seq<OpenInode>, s: nat)
    ensures s in OpenSet(open) <==> IsOpen(open, s)
  {
    if IsOpen(open, s) { assert open[FindOpen(open, s, 0).value].sector in OpenSet(open); }
  }

  lemma PutOpenSet(open: seq<OpenInode>, j: nat, x: OpenInode)
    requires j < |open| && x.sector == open[j].sector
    ensures OpenSet(open[j := x]) == OpenSet(open) && (Unique(open) ==> Unique(open[j := x]))
  {
    var open' := open[j := x];
    assert forall k :: 0 <= k < |open| ==> open'[k].sector == open[k].sector;
    forall t | t in OpenSet(open) ensures t in OpenSet(open') {
      var k :| 0 <= k < |open| && open[k].sector == t;
      assert open'[k].sector == t;
    }
  }

  /** One listed inode changes, and so do its openers; nobody else's do. */
  lemma PutKeepsOpenOk(open: seq<OpenInode>, j: nat, x: OpenInode, files: seq<Option<File>>, files': seq<Option<File>>,
                       pins: multiset<nat>, pins': multiset<nat>)
    requires OpenOk(open, files, pins) && j < |open| && x.sector == open[j].sector && CountOk(x, files', pins')
    requires forall t: nat :: t != x.sector ==>
                 Openers(files', pins', t) == Openers(files, pins, t) && Tally(files', t, true) == Tally(files, t, true)
    ensures OpenOk(open[j := x], files', pins')
  {
    PutOpenSet(open, j, x);
    var open' := open[j := x];
    forall k | 0 <= k < |open'| ensures CountOk(open'[k], files', pins') {
      if k != j { assert CountOk(open[k], files, pins) && open[k].sector != x.sector; }
    }
    assert x.sector in OpenSet(open) by { assert open[j].sector == x.sector; }
  }

  lemma PushOpenSet(open: seq<OpenInode>, x: OpenInode)
    ensures OpenSet([x] + open) == OpenSet(open) + {x.sector}
    ensures Unique(open) && x.sector !in OpenSet(open) ==> Unique([x] + open)
  {
    var open' := [x] + open;
    forall t | t in OpenSet(open) ensures t in OpenSet(open') {
      var k :| 0 <= k < |open| && open[k].sector == t;
      assert open'[k + 1].sector == t;
    }
    assert open'[0].sector == x.sector;
    assert forall k :: 0 <= k < |open| ==> open[k].sector in OpenSet(open);
  }

  lemma PushKeepsOpenOk(open: seq<OpenInode>, x: OpenInode, files: seq<Option<File>>, pins: multiset<nat>)
    requires OpenOk(open, files, pins) && x.sector !in OpenSet(open) && x.cnt == 1 && x.denied == 0
    ensures OpenOk([x] + open, files, pins + multiset{x.sector}) && OpenSet([x] + open) == OpenSet(open) + {x.sector}
  {
    hide OpenSet, Unique;
    var open', pins' := [x] + open, pins + multiset{x.sector};
    PushOpenSet(open, x);
    DenyAtMostOpen(files, x.sector);
    assert Openers(files, pins, x.sector) == 0;
    forall k | 0 <= k < |open'| ensures CountOk(open'[k], files, pins') {
      if k > 0 {
        assert open'[k] == open[k - 1] && CountOk(open[k - 1], files, pins);
        InOpenSet(open, k - 1);
      }
    }
  }

  lemma InOpenSet(open: seq<OpenInode>, j: nat)
    requires j < |open|
    ensures open[j].sector in OpenSet(open)
  {
  }

  lemma DropKeepsOpenOk(open: seq<OpenInode>, j: nat, files: seq<Option<File>>, pins: multiset<nat>)
    requires OpenOk(open, files, pins) && j < |open| && open[j].cnt == 1 && pins[open[j].sector] > 0
    ensures OpenOk(open[..j] + open[j + 1..], files, pins - multiset{open[j].sector})
  {
    var s := open[j].sector;
    var open', pins' := open[..j] + open[j + 1..], pins - multiset{s};
    OpenSetRemove(open, j);
    assert CountOk(open[j], files, pins);
    forall k | 0 <= k < |open'| ensures CountOk(open'[k], files, pins') {
      var i := if k < j then k else k + 1;
      assert open'[k] == open[i] && CountOk(open[i], files, pins);
    }
  }

  lemma InodeOpenKeepsOpenOk(fs: Fs, s: nat, ok: bool, pins: multiset<nat>)
    requires OpenOk(fs.open, fs.files, pins) && s < |fs.disk| && InodeOpen(fs, s, ok).1
    ensures var fs' := InodeOpen(fs, s, ok).0;
            OpenOk(fs'.open, fs'.files, pins + multiset{s}) && OpenSet(fs'.open) == OpenSet(fs.open) + {s}
  {
    hide OpenOk;
    OpenMember(fs.open, s);
    if IsOpen(fs.open, s) {
      var j := FindOpen(fs.open, s, 0).value;
      var x := fs.open[j].(cnt := fs.open[j].cnt + 1);
      CountAt(fs.open, j, fs.files, pins);
      PutOpenSet(fs.open, j, x);
      PutKeepsOpenOk(fs.open, j, x, fs.files, fs.files, pins, pins + multiset{s});
    } else {
      PushKeepsOpenOk(fs.open, OpenInode(s, 1, false, 0, NodeAt(fs.disk, s)), fs.files, pins);
    }
  }

  lemma CountAt(open: seq<OpenInode>, j: nat, files: seq<Option<File>>, pins: multiset<nat>)
    requires OpenOk(open, files, pins) && j < |open|
    ensures CountOk(open[j], files, pins) && Unique(open)
  {
  }

  lemma OpenersListed(open: seq<OpenInode>, files: seq<Option<File>>, pins: multiset<nat>, s: nat)
    requires OpenOk(open, files, pins) && Openers(files, pins, s) > 0
    ensures IsOpen(open, s)
  {
    OpenMember(open, s);
  }

  /** `inode_open` of a named or already open inode. */
  lemma InodeOpenKeeps(fs: Fs, s: nat, ok: bool, pins: multiset<nat>)
    requires InvWith(fs, pins) && s in Live(Slots(fs.disk), fs.open)
    ensures s < |fs.disk|
    ensures var (fs', done) := InodeOpen(fs, s, ok);
            && (ok || IsOpen(fs.open, s) ==> done) && (!done ==> fs' == fs)
            && (done ==> InvWith(fs', pins + multiset{s}) && IsOpen(fs'.open, s))
            && fs'.disk == fs.disk && fs'.used == fs.used && fs'.files == fs.files
            && (done ==> Live(Slots(fs.disk), fs'.open) == Live(Slots(fs.disk), fs.open))
  {
    hide Slots, DirOk, RootOk, OpenOk, CopyOk, RemovedOk, OpenSet, NamedSet;
    assert s < |fs.disk| by { SpaceIn(fs.used, fs.disk, Live(Slots(fs.disk), fs.open), s); }
    var (fs', done) := InodeOpen(fs, s, ok);
    OpenMember(fs.open, s);
    if done {
      InodeOpenKeepsOpenOk(fs, s, ok, pins);
      OpenMember(fs'.open, s);
      InodeOpenKeepsCopies(fs, s, ok);
      assert Live(Slots(fs.disk), fs'.open) == Live(Slots(fs.disk), fs.open);
    }
  }

  lemma SpaceIn(used: seq<bool>, d: Image, live: set<nat>, s: nat)
    requires SpaceOk(used, d, live) && s in live
    ensures s < |d|
  {
  }

  lemma InodeOpenKeepsCopies(fs: Fs, s: nat, ok: bool)
    requires RootOk(fs.disk) && s < |fs.disk| && CopyOk(fs.open, fs.disk) && RemovedOk(fs.open, Slots(fs.disk))
    requires s in Live(Slots(fs.disk), fs.open)
    ensures var fs' := InodeOpen(fs, s, ok).0; CopyOk(fs'.open, fs.disk) && RemovedOk(fs'.open, Slots(fs.disk))
  {
    hide Slots, RootOk, NamedSet;
    OpenMember(fs.open, s);
  }

  lemma OpenSetRemove(open: seq<OpenInode>, j: nat)
    requires j < |open| && Unique(open)
    ensures OpenSet(open[..j] + open[j + 1..]) == OpenSet(open) - {open[j].sector}
  {
    var r := open[..j] + open[j + 1..];
    forall k | 0 <= k < |open| && k != j ensures open[k].sector in OpenSet(r) {
      assert r[if k < j then k else k - 1] == open[k];
    }
    forall k | 0 <= k < |r| ensures r[k].sector in OpenSet(open) && r[k].sector != open[j].sector {
      assert r[k] == open[if k < j then k else k + 1];
    }
  }

  lemma InodeCloseKeepsOpenOk(fs: Fs, s: nat, pins: multiset<nat>)
    requires OpenOk(fs.open, fs.files, pins) && pins[s] > 0
    ensures IsOpen(fs.open, s)
    ensures var fs' := InodeClose(fs, s); var x := fs.open[FindOpen(fs.open, s, 0).value];
            && OpenOk(fs'.open, fs'.files, pins - multiset{s})
            && OpenSet(fs'.open) == OpenSet(fs.open) - (if x.cnt > 1 then {} else {s})
  {
    hide OpenOk;
    OpenersListed(fs.open, fs.files, pins, s);
    var j := FindOpen(fs.open, s, 0).value;
    var x := fs.open[j];
    CountAt(fs.open, j, fs.files, pins);
    if x.cnt > 1 {
      PutOpenSet(fs.open, j, x.(cnt := x.cnt - 1));
      PutKeepsOpenOk(fs.open, j, x.(cnt := x.cnt - 1), fs.files, fs.files, pins, pins - multiset{s});
    } else {
      OpenSetRemove(fs.open, j);
      DropKeepsOpenOk(fs.open, j, fs.files, pins);
    }
  }

  lemma InodeCloseKeepsCopies(fs: Fs, s: nat, es: seq<Entry>)
    requires IsOpen(fs.open, s) && CopyOk(fs.open, fs.disk) && RemovedOk(fs.open, es)
    ensures var fs' := InodeClose(fs, s); CopyOk(fs'.open, fs.disk) && RemovedOk(fs'.open, es)
  {
    hide NamedSet;
  }

  /** `inode_close`: the last close of a removed inode makes it live no longer and frees its sectors. */
  lemma InodeCloseKeeps(fs: Fs, s: nat, pins: multiset<nat>)
    requires InvWith(fs, pins) && pins[s] > 0
    ensures IsOpen(fs.open, s) && InvWith(InodeClose(fs, s), pins - multiset{s})
    ensures InodeClose(fs, s).disk == fs.disk && InodeClose(fs, s).files == fs.files
  {
    hide Slots, DirOk, RootOk, OpenOk, SpaceOk, CopyOk, RemovedOk, NamedSet, OpenSet;
    InodeCloseKeepsOpenOk(fs, s, pins);
    InodeCloseKeepsCopies(fs, s, Slots(fs.disk));
    var j := FindOpen(fs.open, s, 0).value;
    var x := fs.open[j];
    var fs' := InodeClose(fs, s);
    var live, live' := Live(Slots(fs.disk), fs.open), Live(Slots(fs.disk), fs'.open);
    InOpenSet(fs.open, j);
    if x.cnt <= 1 && x.removed {
      RemovedIs(fs.open, j, Slots(fs.disk), fs.disk);
      SpaceRelease(fs.used, fs.disk, live, live', s);
    } else {
      SpaceSub(fs.used, fs.disk, live, live');
    }
  }

  lemma RemovedIs(open: seq<OpenInode>, j: nat, es: seq<Entry>, d: Image)
    requires j < |open| && RemovedOk(open, es) && CopyOk(open, d)
    ensures open[j].sector < |d| && open[j].node == NodeAt(d, open[j].sector)
    ensures if open[j].removed then open[j].sector >= 2 && open[j].sector !in NamedSet(es)
            else open[j].sector < 2 || open[j].sector in NamedSet(es)
  {
  }
}
