/** Guarantees over every run of file system calls. */
module FileTheorems {
  import opened Base
  import opened Disk
  import opened DiskFormat
  import opened Bits
  import opened FileSys
  import opened FileCalls
  import opened FileRuns

  /** A call, with the outcome of the memory allocations it makes. */
  datatype Call =
    | CallCreate(name: Name, length: nat, o: Outcomes)
    | CallRemove(name: Name, dirOk: bool, nodeOk: bool, lookup: nat, write: bool)
    | CallOpen(name: Name, dirOk: bool, nodeOk: bool, fileOk: bool, lookup: nat)
    | CallReopen(h: nat, fileOk: bool)
    | CallClose(h: nat)
    | CallRead(h: nat, size: int, bounce: bool)
    | CallWrite(h: nat, b: seq<byte>, bounce: bool)
    | CallSeek(h: nat, pos: nat)
    | CallDeny(h: nat)
    | CallAllow(h: nat)

  /** Names are C strings, sizes fit `off_t`, and files are open. */
  predicate Enabled(fs: Fs, c: Call) {
    match c
    case CallCreate(name, length, _) => 0 !in name && length <= MAX_SIZE
    case CallRemove(name, _, _, _, _) => 0 !in name
    case CallOpen(name, _, _, _, _) => 0 !in name
    case _ => IsFile(fs, c.h)
  }

  /** What the calls look up is there; part of the invariant. */
  predicate Sane(fs: Fs) {
    && RootOk(fs.disk) && |fs.used| == |fs.disk| && NamesOnDisk(fs.disk)
    && forall h :: 0 <= h < |fs.files| && fs.files[h].Some? ==> FileSane(fs, fs.files[h].value.sector)
  }

  predicate FileSane(fs: Fs, s: nat) {
    s < |fs.disk| && IsOpen(fs.open, s) && OnDisk(fs.disk, fs.open[FindOpen(fs.open, s, 0).value].node)
  }

  function Step(fs: Fs, c: Call): (r: Fs)
    requires Sane(fs) && Enabled(fs, c)
  {
    match c
    case CallCreate(name, length, o) => Create(fs, name, length, o).0
    case CallRemove(name, dirOk, nodeOk, lookup, write) => Remove(fs, name, dirOk, nodeOk, lookup, write).0
    case CallOpen(name, dirOk, nodeOk, fileOk, lookup) => Open(fs, name, dirOk, nodeOk, fileOk, lookup).0
    case CallReopen(h, fileOk) => Reopen(fs, h, fileOk).0
    case CallClose(h) => Close(fs, h)
    case CallRead(h, size, bounce) => Read(fs, h, size, bounce).0
    case CallWrite(h, b, bounce) => Write(fs, h, b, bounce).0
    case CallSeek(h, pos) => PutFile(fs, h, Some(fs.files[h].value.(pos := pos)))
    case CallDeny(h) => Deny(fs, h)
    case CallAllow(h) => Allow(fs, h)
  }

  /** The call is a creation whose scans of the directory are cut short in a way that breaks it. */
  predicate Breaks(fs: Fs, c: Call)
    requires Sane(fs)
  {
    c.CallCreate? && CreateBreaks(fs, c.name, c.length, c.o)
  }

  lemma InvIsSane(fs: Fs)
    requires Inv(fs)
    ensures Sane(fs)
  {
    hide DirOk, OpenOk, CopyOk, RemovedOk, NamedSet, OpenSet, Slots, SpaceOk, RootOk;
    var pins := multiset{FREE_MAP_SECTOR};
    SizesAgree(fs, pins);
    InvNamesOnDisk(fs, pins);
    forall h | 0 <= h < |fs.files| && fs.files[h].Some?
      ensures FileSane(fs, fs.files[h].value.sector) { FileIsOpen(fs, pins, h); }
  }

  // ------------------------------------------------------------------- writing

  /** How many bytes a transfer at a position of a file of that length must move: all there are, or whole sectors. */
  function Due(length: nat, size: int, pos: nat, bounce: bool): (n: nat)
    ensures size >= 0 ==> n <= size
  {
    var all: nat := if size <= 0 || length <= pos then 0 else if size <= length - pos then size else length - pos;
    if bounce then all else if pos % SECTOR_SIZE == 0 then all / SECTOR_SIZE * SECTOR_SIZE else 0
  }

  /** Some opener of the file denies writes. */
  ghost predicate Denies(files: seq<Option<File>>, s: nat) {
    exists g :: 0 <= g < |files| && files[g].Some? && files[g].value.sector == s && files[g].value.deny
  }

  /** How many of `size` bytes a write through file `h` must take. */
  ghost function Accepted(fs: Fs, h: nat, size: nat, bounce: bool): (n: nat)
    requires IsFile(fs, h) && fs.files[h].value.sector < |fs.disk|
    ensures n <= size
  {
    var f := fs.files[h].value;
    if Denies(fs.files, f.sector) then 0 else Due(NodeAt(fs.disk, f.sector).length, size, f.pos, bounce)
  }

  /** The bytes a call writes into the file in sector `s`, if any. */
  ghost function Written(fs: Fs, c: Call, s: nat): (b: seq<byte>)
    requires Sane(fs) && Enabled(fs, c)
  {
    if c.CallWrite? && fs.files[c.h].value.sector == s then c.b[..Accepted(fs, c.h, |c.b|, c.bounce)] else []
  }

  /** The count of denials is positive exactly if somebody denies writes. */
  lemma {:induction false} DeniesIff(files: seq<Option<File>>, s: nat)
    ensures Tally(files, s, true) > 0 <==> Denies(files, s)
  {
    if files != [] {
      var n := |files| - 1;
      DeniesIff(files[..n], s);
      if Denies(files[..n], s) {
        var g :| 0 <= g < n && files[..n][g].Some? && files[..n][g].value.sector == s && files[..n][g].value.deny;
        assert files[g] == files[..n][g];
      }
      if Denies(files, s) && !Counts(files[n], s, true) {
        var g :| 0 <= g < |files| && files[g].Some? && files[g].value.sector == s && files[g].value.deny;
        assert files[..n][g] == files[g];
      }
    }
  }

  function Where(fs: Fs, c: Call): (p: nat)
    requires Enabled(fs, c)
  {
    if c.CallWrite? then fs.files[c.h].value.pos else 0
  }

  /** What `file_write` does, in terms of the inode on disk. */
  lemma WriteIs(fs: Fs, h: nat, b: seq<byte>, bounce: bool)
    requires Inv(fs) && IsFile(fs, h)
    ensures Sane(fs)
    ensures var (fs', n) := Write(fs, h, b, bounce); var f := fs.files[h].value; var node := NodeAt(fs.disk, f.sector);
            && n == Accepted(fs, h, |b|, bounce) && n <= |b| && (n > 0 ==> f.pos + n <= node.length)
            && fs'.disk == Patch(fs.disk, node.start * SECTOR_SIZE + f.pos, b[..n])
            && fs' == PutFile(fs.(disk := fs'.disk), h, Some(f.(pos := f.pos + n)))
  {
    hide InvWith, Patch, Transfer, Due, Denies, Tally;
    InvIsSane(fs);
    FileIsOpen(fs, multiset{FREE_MAP_SECTOR}, h);
    var f := fs.files[h].value;
    DeniesIff(fs.files, f.sector);
    TransferIs(NodeAt(fs.disk, f.sector), |b|, f.pos, bounce);
    TransferWithin(NodeAt(fs.disk, f.sector), |b|, f.pos, bounce);
    PatchNothing(fs.disk, NodeAt(fs.disk, f.sector).start * SECTOR_SIZE + f.pos);
    assert fs.files[h := Some(f.(pos := f.pos + 0))] == fs.files;
  }

  lemma TransferWithin(node: Node, size: nat, pos: nat, bounce: bool)
    ensures var n := Transfer(node, size, pos, bounce); n <= size && (n > 0 ==> pos + n <= node.length)
  {
  }

  /**
   `file_write` keeps the invariant and writes within the file only: nothing if an opener denies writes, else as many
   bytes as are due.
   */
  lemma WriteKeeps(fs: Fs, h: nat, b: seq<byte>, bounce: bool)
    requires Inv(fs) && IsFile(fs, h)
    ensures Sane(fs)
    ensures var (fs', n) := Write(fs, h, b, bounce); var f := fs.files[h].value; var node := NodeAt(fs.disk, f.sector);
            && Inv(fs') && SameOrphans(fs, fs') && fs'.used == fs.used && fs'.open == fs.open
            && n == (if Denies(fs.files, f.sector) then 0 else Due(node.length, |b|, f.pos, bounce))
            && n <= |b| && (n > 0 ==> f.pos + n <= node.length) && OnDisk(fs.disk, node)
            && fs'.disk == Patch(fs.disk, node.start * SECTOR_SIZE + f.pos, b[..n])
            && Slots(fs'.disk) == Slots(fs.disk) && fs'.files == fs.files[h := Some(f.(pos := f.pos + n))]
            && (forall t :: t in Live(Slots(fs.disk), fs.open) ==>
                   t < |fs'.disk| && NodeAt(fs'.disk, t) == NodeAt(fs.disk, t))
  {
    hide DirOk, OpenOk, CopyOk, RemovedOk, NamedSet, OpenSet, Slots, SpaceOk, RootOk, Patch, IsOrphan, Write, Denies,
         Due;
    var pins := multiset{FREE_MAP_SECTOR};
    WriteIs(fs, h, b, bounce);
    FileIsOpen(fs, pins, h);
    var f := fs.files[h].value;
    var (fs', n) := Write(fs, h, b, bounce);
    PatchKeeps(fs, pins, f.sector, f.pos, b[..n]);
    SeekKeeps(fs.(disk := fs'.disk), pins, h, f.pos + n);
  }

  // ------------------------------------------------------------- the invariant

  /** A call keeps the invariant if and only if it is not a creation broken by a scan cut short. */
  lemma StepKeepsInvIff(fs: Fs, c: Call)
    requires Inv(fs) && Enabled(fs, c)
    ensures Sane(fs) && (Inv(Step(fs, c)) <==> !Breaks(fs, c))
  {
    hide InvWith, Create, Remove, Open, Reopen, Close, Deny, Allow, CreateBreaks;
    InvIsSane(fs);
    match c
    case CallCreate(name, length, o) => CreateKeepsIff(fs, name, length, o);
    case CallRemove(name, dirOk, nodeOk, lookup, write) => RemoveKeeps(fs, name, dirOk, nodeOk, lookup, write);
    case CallOpen(name, dirOk, nodeOk, fileOk, lookup) => OpenKeeps(fs, name, dirOk, nodeOk, fileOk, lookup);
    case CallReopen(h, fileOk) => ReopenKeeps(fs, h, fileOk);
    case CallClose(h) => CloseKeeps(fs, h);
    case CallRead(h, size, bounce) => SeekKeeps(fs, multiset{FREE_MAP_SECTOR}, h, ReadPos(fs, h, size, bounce));
    case CallWrite(h, b, bounce) => WriteKeeps(fs, h, b, bounce);
    case CallSeek(h, pos) => SeekKeeps(fs, multiset{FREE_MAP_SECTOR}, h, pos);
    case CallDeny(h) => DenialKeeps(fs, multiset{FREE_MAP_SECTOR}, h, true);
    case CallAllow(h) => DenialKeeps(fs, multiset{FREE_MAP_SECTOR}, h, false);
  }

  /** The position `file_read` leaves. */
  function ReadPos(fs: Fs, h: nat, size: int, bounce: bool): (p: nat)
    requires Sane(fs) && IsFile(fs, h)
  {
    Read(fs, h, size, bounce).0.files[h].value.pos
  }

  // ------------------------------------------------------------------ contents

  ghost predicate IsLive(fs: Fs, s: nat) {
    RootOk(fs.disk) && s >= 2 && s < |fs.disk| && s in Live(Slots(fs.disk), fs.open)
  }

  ghost function FileBytes(fs: Fs, s: nat): seq<byte>
    requires s < |fs.disk| && OnDisk(fs.disk, NodeAt(fs.disk, s))
  {
    Contents(fs.disk, NodeAt(fs.disk, s))
  }

  /** The file in sector `s` is the same file, its contents spliced as told. */
  ghost predicate Spliced(fs: Fs, fs': Fs, s: nat, p: nat, b: seq<byte>) {
    && s < |fs.disk| && s < |fs'.disk| && NodeAt(fs'.disk, s) == NodeAt(fs.disk, s)
    && OnDisk(fs.disk, NodeAt(fs.disk, s)) && OnDisk(fs'.disk, NodeAt(fs.disk, s))
    && (b != [] ==> p + |b| <= NodeAt(fs.disk, s).length)
    && FileBytes(fs', s) == Splice(FileBytes(fs, s), p, b)
  }

  lemma UsedKeepsFile(fs: Fs, fs': Fs, s: nat)
    requires Inv(fs) && IsLive(fs, s) && KeepsUsed(fs, fs')
    ensures Spliced(fs, fs', s, 0, [])
  {
    hide DirOk, OpenOk, CopyOk, RemovedOk, NamedSet, OpenSet, Slots, NodeOf;
    var live := Live(Slots(fs.disk), fs.open);
    var node := NodeAt(fs.disk, s);
    RootSector(fs, multiset{FREE_MAP_SECTOR});
    LiveIsUsed(fs, multiset{FREE_MAP_SECTOR}, s);
    assert ROOT_DIR_SECTOR in live && Owns(fs.disk, ROOT_DIR_SECTOR, RootData(fs.disk));
    forall q | node.start <= q < node.start + Sectors(node.length) ensures q < |fs.disk| && fs'.disk[q] == fs.disk[q] {
      assert Owns(fs.disk, s, q);
    }
    ContentsFrame(fs.disk, fs'.disk, node);
  }

  lemma WriteSplicesFile(fs: Fs, h: nat, b: seq<byte>, bounce: bool, s: nat)
    requires Inv(fs) && IsFile(fs, h) && IsLive(fs, s)
    ensures Sane(fs)
    ensures var f := fs.files[h].value; var (fs', n) := Write(fs, h, b, bounce);
            n == Accepted(fs, h, |b|, bounce) && Spliced(fs, fs', s, f.pos, if f.sector == s then b[..n] else [])
  {
    hide DirOk, OpenOk, CopyOk, RemovedOk, NamedSet, OpenSet, Slots, NodeOf, SpaceOk, Patch, IsOrphan, Write, RootOk,
         Contents;
    WriteKeeps(fs, h, b, bounce);
    var f := fs.files[h].value;
    var (fs', n) := Write(fs, h, b, bounce);
    var live := Live(Slots(fs.disk), fs.open);
    FileIsOpen(fs, multiset{FREE_MAP_SECTOR}, h);
    LiveOnDisk(fs.used, fs.disk, live, s);
    WriteWithin(fs.disk, NodeAt(fs.disk, f.sector), f.pos, b[..n]);
    if f.sector != s {
      var node := NodeAt(fs.disk, s);
      forall q | node.start <= q < node.start + Sectors(node.length)
        ensures q < |fs.disk| && fs'.disk[q] == fs.disk[q] {
        DataApart(fs.used, fs.disk, live, f.sector, s, q);
      }
      ContentsFrame(fs.disk, fs'.disk, node);
    }
  }

  /** No call but a write to it changes a file, whatever else it creates, removes, opens or closes. */
  lemma StepSplices(fs: Fs, c: Call, s: nat)
    requires Inv(fs) && Enabled(fs, c) && IsLive(fs, s) && (Sane(fs) ==> !Breaks(fs, c))
    ensures Sane(fs) && Spliced(fs, Step(fs, c), s, Where(fs, c), Written(fs, c, s))
  {
    hide InvWith, Create, Remove, Open, Reopen, Close, IsLive, Spliced;
    InvIsSane(fs);
    match c
    case CallCreate(name, length, o) => CreateKeeps(fs, name, length, o); UsedKeepsFile(fs, Step(fs, c), s);
    case CallRemove(name, dirOk, nodeOk, lookup, write) => RemoveKeeps(fs, name, dirOk, nodeOk, lookup, write);
      UsedKeepsFile(fs, Step(fs, c), s);
    case CallOpen(name, dirOk, nodeOk, fileOk, lookup) => OpenKeeps(fs, name, dirOk, nodeOk, fileOk, lookup);
      UsedKeepsFile(fs, Step(fs, c), s);
    case CallReopen(h, fileOk) => ReopenKeeps(fs, h, fileOk); UsedKeepsFile(fs, Step(fs, c), s);
    case CallClose(h) => CloseKeeps(fs, h); UsedKeepsFile(fs, Step(fs, c), s);
    case CallWrite(h, b, bounce) => WriteSplicesFile(fs, h, b, bounce, s);
    case CallRead(_, _, _) => UsedKeepsFile(fs, Step(fs, c), s);
    case CallSeek(_, _) => UsedKeepsFile(fs, Step(fs, c), s);
    case CallDeny(_) => UsedKeepsFile(fs, Step(fs, c), s);
    case CallAllow(_) => UsedKeepsFile(fs, Step(fs, c), s);
  }

  // ---------------------------------------------------------------------- runs

  /** A run: each call's files are open.  `Sane` is no restriction, as every reachable state is. */
  predicate Legal(fs: Fs, cs: seq<Call>)
    decreases |cs|
  {
    cs == [] || (Sane(fs) && Enabled(fs, cs[0]) && Legal(Step(fs, cs[0]), cs[1..]))
  }

  function Run(fs: Fs, cs: seq<Call>): (r: Fs)
    requires Legal(fs, cs)
    decreases |cs|
  {
    if cs == [] then fs else Run(Step(fs, cs[0]), cs[1..])
  }

  /** No creation of the run is broken by a scan cut short. */
  predicate Intact(fs: Fs, cs: seq<Call>)
    requires Legal(fs, cs)
    decreases |cs|
  {
    cs == [] || (!Breaks(fs, cs[0]) && Intact(Step(fs, cs[0]), cs[1..]))
  }

  /** The invariant holds in every state of the run. */
  ghost predicate AlwaysInv(fs: Fs, cs: seq<Call>)
    requires Legal(fs, cs)
    decreases |cs|
  {
    Inv(fs) && (cs == [] || AlwaysInv(Step(fs, cs[0]), cs[1..]))
  }

  /** The invariant holds throughout a run if and only if no creation in it is broken by a scan cut short. */
  lemma {:induction false} RunKeepsInvIff(fs: Fs, cs: seq<Call>)
    requires Inv(fs) && Legal(fs, cs)
    ensures AlwaysInv(fs, cs) <==> Intact(fs, cs)
    ensures Intact(fs, cs) ==> Inv(Run(fs, cs))
    decreases |cs|
  {
    hide Inv, Step, Sane, Enabled, Breaks;
    if cs != [] {
      StepKeepsInvIff(fs, cs[0]);
      if !Breaks(fs, cs[0]) { RunKeepsInvIff(Step(fs, cs[0]), cs[1..]); }
      else { NotAlways(Step(fs, cs[0]), cs[1..]); }
    }
  }

  lemma NotAlways(fs: Fs, cs: seq<Call>)
    requires Legal(fs, cs)
    ensures AlwaysInv(fs, cs) ==> Inv(fs)
  {
  }

  /** The file in sector `s` is named or open in every state of the run. */
  ghost predicate AlwaysLive(fs: Fs, cs: seq<Call>, s: nat)
    requires Legal(fs, cs)
    decreases |cs|
  {
    IsLive(fs, s) && (cs == [] || AlwaysLive(Step(fs, cs[0]), cs[1..], s))
  }

  /** What the writes of a run make of a byte string: the file as a flat sequence. */
  ghost function Replay(fs: Fs, cs: seq<Call>, s: nat, bytes: seq<byte>): (r: seq<byte>)
    requires Legal(fs, cs)
    decreases |cs|
  {
    if cs == [] then bytes
    else
      var b := Written(fs, cs[0], s);
      var p := Where(fs, cs[0]);
      Replay(Step(fs, cs[0]), cs[1..], s, if b == [] || p + |b| > |bytes| then bytes else Splice(bytes, p, b))
  }

  /**
   Over every run, a file that stays named or open holds its first contents with the writes to it spliced in,
   in order, and nothing else: also while it has lost its name, and whatever is created or removed meanwhile.
   */
  lemma {:induction false} FileHoldsWrites(fs: Fs, cs: seq<Call>, s: nat)
    requires Inv(fs) && Legal(fs, cs) && Intact(fs, cs) && AlwaysLive(fs, cs, s)
    ensures var r := Run(fs, cs);
            s < |fs.disk| && OnDisk(fs.disk, NodeAt(fs.disk, s)) && s < |r.disk|
                && NodeAt(r.disk, s) == NodeAt(fs.disk, s)
    ensures var r := Run(fs, cs);
            OnDisk(r.disk, NodeAt(r.disk, s)) && FileBytes(r, s) == Replay(fs, cs, s, FileBytes(fs, s))
    decreases |cs|
  {
    hide InvWith, Step, Sane, Enabled, Written, Contents, Breaks;
    if cs == [] {
      LiveFileOnDisk(fs, s);
    } else {
      StepSplices(fs, cs[0], s);
      StepKeepsInvIff(fs, cs[0]);
      FileHoldsWrites(Step(fs, cs[0]), cs[1..], s);
    }
  }

  lemma LiveFileOnDisk(fs: Fs, s: nat)
    requires Inv(fs) && IsLive(fs, s)
    ensures OnDisk(fs.disk, NodeAt(fs.disk, s))
  {
    LiveOnDisk(fs.used, fs.disk, Live(Slots(fs.disk), fs.open), s);
  }

  /** An open file stays the same file, hence live, until it is closed. */
  lemma StepKeepsFile(fs: Fs, c: Call, h: nat)
    requires Inv(fs) && Enabled(fs, c) && IsFile(fs, h) && c != CallClose(h) && (Sane(fs) ==> !Breaks(fs, c))
    ensures Sane(fs) && IsFile(Step(fs, c), h) && Step(fs, c).files[h].value.sector == fs.files[h].value.sector
  {
    hide InvWith, Create, Remove, Open, Reopen, Close, Read, Write, Deny, Allow;
    InvIsSane(fs);
    match c
    case CallCreate(name, length, o) => CreateKeeps(fs, name, length, o);
    case CallRemove(name, dirOk, nodeOk, lookup, write) => RemoveKeeps(fs, name, dirOk, nodeOk, lookup, write);
    case CallOpen(name, dirOk, nodeOk, fileOk, lookup) => OpenKeeps(fs, name, dirOk, nodeOk, fileOk, lookup);
    case CallReopen(g, fileOk) => ReopenKeeps(fs, g, fileOk);
    case CallClose(g) => CloseKeeps(fs, g);
    case CallRead(g, size, bounce) => ReadFiles(fs, g, size, bounce);
    case CallWrite(g, b, bounce) => WriteKeeps(fs, g, b, bounce);
    case CallSeek(_, _) =>
    case CallDeny(g) => DenialKeeps(fs, multiset{FREE_MAP_SECTOR}, g, true);
    case CallAllow(g) => DenialKeeps(fs, multiset{FREE_MAP_SECTOR}, g, false);
  }

  lemma ReadFiles(fs: Fs, h: nat, size: int, bounce: bool)
    requires Sane(fs) && IsFile(fs, h)
    ensures Read(fs, h, size, bounce).0.files
            == fs.files[h := Some(fs.files[h].value.(pos := ReadPos(fs, h, size, bounce)))]
  {
  }

  /** Until it is closed, an open file keeps its sectors, even when it is removed. */
  lemma {:induction false} OpenStaysLive(fs: Fs, cs: seq<Call>, h: nat)
    requires Inv(fs) && Legal(fs, cs) && Intact(fs, cs) && IsFile(fs, h) && CallClose(h) !in cs
    ensures AlwaysLive(fs, cs, fs.files[h].value.sector)
    decreases |cs|
  {
    hide InvWith, Step, Sane, Enabled, Breaks;
    FileIsLive(fs, h);
    if cs != [] {
      StepKeepsInvIff(fs, cs[0]);
      StepKeepsFile(fs, cs[0], h);
      OpenStaysLive(Step(fs, cs[0]), cs[1..], h);
    }
  }

  lemma FileIsLive(fs: Fs, h: nat)
    requires Inv(fs) && IsFile(fs, h)
    ensures IsLive(fs, fs.files[h].value.sector)
  {
    FileIsOpen(fs, multiset{FREE_MAP_SECTOR}, h);
  }

  /**
   `file_read` returns the bytes of the file from its position on and moves the position by their number: with a bounce
   buffer all that were asked for, up to the end; without one the whole sectors of these, if the position starts one.
   */
  lemma ReadReturns(fs: Fs, h: nat, size: int, bounce: bool)
    requires Inv(fs) && IsFile(fs, h)
    ensures Sane(fs) && var f := fs.files[h].value; f.sector < |fs.disk| && OnDisk(fs.disk, NodeAt(fs.disk, f.sector))
    ensures var f := fs.files[h].value; var (fs', bytes) := Read(fs, h, size, bounce); var c := FileBytes(fs, f.sector);
            && |bytes| == Due(|c|, size, f.pos, bounce)
            && (bytes != [] ==> bytes == c[f.pos..f.pos + |bytes|])
            && fs'.files[h] == Some(f.(pos := f.pos + |bytes|))
  {
    hide InvWith, Contents, Transfer, NodeOf, Due, NamesOnDisk, RootOk, Count, Live, CountOk;
    InvIsSane(fs);
    FileIsOpen(fs, multiset{FREE_MAP_SECTOR}, h);
    var f := fs.files[h].value;
    TransferIs(NodeAt(fs.disk, f.sector), size, f.pos, bounce);
  }

  lemma TransferIs(node: Node, size: int, pos: nat, bounce: bool)
    ensures Transfer(node, size, pos, bounce) == Due(node.length, size, pos, bounce)
  {
  }

  // ---------------------------------------------------------------- beginnings

  /** The free map as `free_map_init` leaves it. */
  function InitialMap(n: nat): (used: seq<bool>)
    requires n >= 2
  {
    SetRange(seq(n, _ => false), 0, 2, true)
  }

  /**
   `do_format` and `free_map_open`; the kernel panics if one of the two
   creations fails, or, as `ok` says, there is no memory or the free map cannot be written or read.
   */
  function Format(d: Image, ok: bool): (r: Option<Fs>)
    requires |d| >= 2
  {
    var (f1, ok1) := InodeCreate(Fs(InitialMap(|d|), d, [], []), FREE_MAP_SECTOR, MapBytes(|d|), true);
    var (f2, ok2) := InodeCreate(f1, ROOT_DIR_SECTOR, DIR_ENTRIES * ENTRY_SIZE, true);
    if ok && ok1 && ok2 then Some(InodeOpen(f2, FREE_MAP_SECTOR, true).0) else None
  }

  /** `bitmap_file_size` of the free map of a disk of `n` sectors. */
  function MapBytes(n: nat): nat { 4 * ((n + ELEM_BITS - 1) / ELEM_BITS) }

  /** One `inode_create` of formatting: the file in sector `s`, marked but not yet owned, gets its own data. */
  lemma FormatStep(fs: Fs, live: set<nat>, s: nat, length: nat)
    requires |fs.used| == |fs.disk| < 0x1_0000_0000 && s < |fs.disk| && length <= MAX_SIZE && fs.used[s]
    requires SpaceOk(fs.used[s := false], fs.disk, live)
    requires InodeCreate(fs, s, length, true).1
    ensures var f := InodeCreate(fs, s, length, true).0;
            && s !in live && SpaceOk(f.used, f.disk, live + {s}) && NodeAt(f.disk, s).length == length
            && |f.disk| == |fs.disk|
            && (forall q :: 0 <= q < |fs.used| && fs.used[q] && q != s ==> f.disk[q] == fs.disk[q])
            && (forall q :: 0 <= q < |fs.used| && fs.used[q] ==> f.used[q] && !DataOf(NodeAt(f.disk, s), q))
            && (forall q :: 0 <= q < |f.disk| && DataOf(NodeAt(f.disk, s), q) ==> f.disk[q] == Zeros(SECTOR_SIZE))
  {
    hide NodeOf, NodeSector;
    var f := InodeCreate(fs, s, length, true).0;
    var start := Scan(fs.used, 0, Sectors(length), false).value;
    NodeRoundTrip(Node(start, length));
    assert NodeAt(f.disk, s) == Node(start, length);
    forall t | t in live ensures t < |fs.disk| && f.disk[t] == fs.disk[t] {
      assert Owns(fs.disk, t, t);
    }
    SpaceAdd(fs.used[s := false], f.used, fs.disk, f.disk, live, s);
  }

  lemma BlankDirectory(d: Image)
    requires RootOk(d) && d[RootData(d)] == Zeros(SECTOR_SIZE)
    ensures forall i :: 0 <= i < DIR_ENTRIES ==> !Slots(d)[i].inUse
  {
  }

  /** Formatting establishes the invariant. */
  lemma FormatIsInv(d: Image, ok: bool)
    requires 2 <= |d| < 0x1_0000_0000
    ensures Format(d, ok).Some? ==>
              var fs := Format(d, ok).value;
              && Inv(fs) && fs.files == [] && |fs.disk| == |d|
              && RootOk(fs.disk) && forall i :: 0 <= i < DIR_ENTRIES ==> !Slots(fs.disk)[i].inUse
  {
    hide SpaceOk, InodeCreate, Slots, NodeOf;
    if Format(d, ok).Some? {
      var f0 := Fs(InitialMap(|d|), d, [], []);
      var f1 := InodeCreate(f0, FREE_MAP_SECTOR, MapBytes(|d|), true).0;
      var f2 := InodeCreate(f1, ROOT_DIR_SECTOR, DIR_ENTRIES * ENTRY_SIZE, true).0;
      EmptySpace(f0.used[0 := false], d);
      FormatStep(f0, {}, FREE_MAP_SECTOR, MapBytes(|d|));
      Unmark(f1, ROOT_DIR_SECTOR);
      FormatStep(f1, {} + {FREE_MAP_SECTOR}, ROOT_DIR_SECTOR, DIR_ENTRIES * ENTRY_SIZE);
      FormattedIsInv(f2);
    }
  }

  /** The first `m` sectors are marked. */
  predicate MarkedTo(used: seq<bool>, m: nat) {
    m <= |used| && forall q :: 0 <= q < |used| ==> (used[q] <==> q < m)
  }

  lemma ScanMarked(used: seq<bool>, m: nat, cnt: nat)
    requires MarkedTo(used, m)
    ensures Scan(used, 0, cnt, false) == (if cnt == 0 then Some(0) else if m + cnt <= |used| then Some(m) else None)
  {
    var r := Scan(used, 0, cnt, false);
    assert cnt == 0 ==> AllAre(used, 0, cnt, false);
    assert m + cnt <= |used| ==> AllAre(used, m, cnt, false);
    if r.Some? && cnt > 0 { assert !used[r.value]; }
  }

  /**
   Formatting succeeds if and only if there is memory, and room for the two inodes, the free map and the root
   directory, which are then marked.
   */
  lemma FormatSucceedsIff(d: Image, ok: bool)
    requires |d| >= 2
    ensures Format(d, ok).Some? <==> ok && |d| >= 3 + Sectors(MapBytes(|d|))
    ensures Format(d, ok).Some? ==> MarkedTo(Format(d, ok).value.used, 3 + Sectors(MapBytes(|d|)))
  {
    hide ZeroSectors, NodeSector, NodeOf;
    var k := Sectors(MapBytes(|d|));
    var f0 := Fs(InitialMap(|d|), d, [], []);
    assert MarkedTo(f0.used, 2);
    ScanMarked(f0.used, 2, k);
    if 2 + k <= |d| {
      var f1 := InodeCreate(f0, FREE_MAP_SECTOR, MapBytes(|d|), true).0;
      assert MarkedTo(f1.used, 2 + k);
      assert Sectors(DIR_ENTRIES * ENTRY_SIZE) == 1;
      ScanMarked(f1.used, 2 + k, 1);
    }
  }

  lemma EmptySpace(used: seq<bool>, d: Image)
    requires |used| == |d|
    ensures SpaceOk(used, d, {})
  {
  }

  /** The free map's file does not own the root directory's inode, so that may count as unmarked. */
  lemma Unmark(fs: Fs, s: nat)
    requires SpaceOk(fs.used, fs.disk, {} + {FREE_MAP_SECTOR}) && 0 < s < |fs.disk|
    requires !DataOf(NodeAt(fs.disk, FREE_MAP_SECTOR), s)
    ensures SpaceOk(fs.used[s := false], fs.disk, {} + {FREE_MAP_SECTOR})
  {
    SpaceFrame(fs.used, fs.used[s := false], fs.disk, fs.disk, {} + {FREE_MAP_SECTOR});
  }

  lemma FormattedIsInv(fs: Fs)
    requires |fs.disk| < 0x1_0000_0000 && fs.open == [] && fs.files == []
    requires SpaceOk(fs.used, fs.disk, {} + {FREE_MAP_SECTOR} + {ROOT_DIR_SECTOR})
    requires |fs.disk| >= 2 && NodeAt(fs.disk, ROOT_DIR_SECTOR).length == DIR_ENTRIES * ENTRY_SIZE
    requires forall q :: 0 <= q < |fs.disk| && DataOf(NodeAt(fs.disk, ROOT_DIR_SECTOR), q) ==>
                 fs.disk[q] == Zeros(SECTOR_SIZE)
    ensures Inv(InodeOpen(fs, FREE_MAP_SECTOR, true).0)
    ensures RootOk(fs.disk) && forall i :: 0 <= i < DIR_ENTRIES ==> !Slots(fs.disk)[i].inUse
  {
    hide NodeOf, Entries, EntryOf;
    assert RootOk(fs.disk) by { assert ROOT_DIR_SECTOR in {} + {FREE_MAP_SECTOR} + {ROOT_DIR_SECTOR}; }
    BlankDirectory(fs.disk);
    var es := Slots(fs.disk);
    assert NamedSet(es) == {};
    assert Live(es, []) == {} + {FREE_MAP_SECTOR} + {ROOT_DIR_SECTOR};
    assert InvWith(fs, multiset{});
    InodeOpenKeeps(fs, FREE_MAP_SECTOR, true, multiset{});
    assert multiset{} + multiset{FREE_MAP_SECTOR} == multiset{FREE_MAP_SECTOR};
  }

  /** A file just created can be opened by its name and reads as zeros of the size asked for. */
  lemma CreatedFileOpens(fs: Fs, name: Name, length: nat, o: Outcomes, lookup: nat)
    requires Inv(fs) && length <= MAX_SIZE && 0 !in name && lookup >= DIR_ENTRIES
    requires RootOk(fs.disk) ==> !CreateBreaks(fs, name, length, o)
    ensures Sane(fs) && var (fs1, ok) := Create(fs, name, length, o);
            Inv(fs1) && NamesOnDisk(fs1.disk) && (ok ==> var (fs2, h) := Open(fs1, name, true, true, true, lookup);
              && h.Some? && IsFile(fs2, h.value) && var s := fs2.files[h.value].value.sector;
              && s < |fs2.disk| && OnDisk(fs2.disk, NodeAt(fs2.disk, s)) && FileBytes(fs2, s) == Zeros(length))
  {
    hide InvWith, Create, Open, Contents, Slots, CreateBreaks, StopAt;
    InvIsSane(fs);
    CreateKeeps(fs, name, length, o);
    var (fs1, ok) := Create(fs, name, length, o);
    InvIsSane(fs1);
    OpenKeeps(fs1, name, true, true, true, lookup);
    if ok {
      var i := StopAt(Slots(fs.disk), o.scan);
      var s :| Created(fs, fs1, name, length, i, s);
      assert Slots(fs1.disk)[i] == Entry(s, name, true);
      OneOfName(fs1, name, s);
      OpensWhenNamed(fs1, name, lookup);
    }
  }

  /** `filesys_open` fails only for want of memory or of the name. */
  lemma OpensWhenNamed(fs: Fs, name: Name, lookup: nat)
    requires Inv(fs) && Sane(fs) && Find(Slots(fs.disk), name, 0).Some? && lookup >= DIR_ENTRIES
    ensures Open(fs, name, true, true, true, lookup).1.Some?
  {
    SeenFinds(Slots(fs.disk), name, lookup);
  }

  lemma OneOfName(fs: Fs, name: Name, s: nat)
    requires Inv(fs) && exists i :: 0 <= i < DIR_ENTRIES && Slots(fs.disk)[i] == Entry(s, name, true)
    ensures Find(Slots(fs.disk), name, 0).Some? && Slots(fs.disk)[Find(Slots(fs.disk), name, 0).value].sector == s
  {
    hide Slots, OpenOk, CopyOk, RemovedOk, SpaceOk, RootOk;
    var i :| 0 <= i < DIR_ENTRIES && Slots(fs.disk)[i] == Entry(s, name, true);
    var k := Find(Slots(fs.disk), name, 0).value;
  }

  // ------------------------------------------------------- where calls go wrong

  /** Memory for everything. */
  function Plenty(): Outcomes { Outcomes(true, true, true, true, DIR_ENTRIES, DIR_ENTRIES, true, []) }

  /** A blank disk of eight sectors, formatted: four are marked. */
  lemma SmallDisk() returns (fs: Fs)
    ensures Format(seq(8, _ => Zeros(SECTOR_SIZE)), true) == Some(fs)
    ensures Inv(fs) && Sane(fs) && MarkedTo(fs.used, 4) && |fs.used| == 8 == |fs.disk|
    ensures forall i :: 0 <= i < DIR_ENTRIES ==> !Slots(fs.disk)[i].inUse
  {
    hide InvWith, Format, Slots;
    var d: Image := seq(8, _ => Zeros(SECTOR_SIZE));
    FormatSucceedsIff(d, true);
    FormatIsInv(d, true);
    fs := Format(d, true).value;
    InvIsSane(fs);
  }

  /** Creating a file with an empty name there fails and leaves sector 5, its data, marked for nobody. */
  lemma EmptyNameLoses()
    ensures exists fs :: Format(seq(8, _ => Zeros(SECTOR_SIZE)), true) == Some(fs) && Sane(fs)
              && var (fs', ok) := Create(fs, [], 1, Plenty());
              !ok && RootOk(fs'.disk) && IsOrphan(fs', 5) && !IsOrphan(fs, 5)
  {
    hide InvWith, Create, Slots, IsOrphan, Format;
    var fs := SmallDisk();
    ScanMarked(fs.used, 4, 1);
    var used' := SetRange(fs.used, 4, 1, true);
    assert MarkedTo(used', 5);
    ScanMarked(used', 5, 1);
    CreateAccounts(fs, [], 1, Plenty(), 5);
    UnmarkedIsNoOrphan(fs, 5);
    CreatedNode(fs, [], 1, Plenty(), 4, 5);
  }

  lemma UnmarkedIsNoOrphan(fs: Fs, q: nat)
    requires RootOk(fs.disk) && q < |fs.used| && !fs.used[q]
    ensures !IsOrphan(fs, q)
  {
  }

  /** The inode a creation writes, named or not. */
  lemma CreatedNode(fs: Fs, name: Name, length: nat, o: Outcomes, s: nat, start: nat)
    requires Sane(fs) && o.dir && o.mark && o.Inode() && |fs.disk| < 0x1_0000_0000 && length <= MAX_SIZE && name == []
    requires Scan(fs.used, 0, 1, false) == Some(s)
    requires Scan(SetRange(fs.used, s, 1, true), 0, Sectors(length), false) == Some(start)
    ensures s < |Create(fs, name, length, o).0.disk|
    ensures NodeAt(Create(fs, name, length, o).0.disk, s) == Node(start, length)
  {
    hide NodeOf, NodeSector, Slots;
    NodeRoundTrip(Node(start, length));
    var used' := SetRange(fs.used, s, 1, true);
    assert used'[s];
    assert !(start <= s < start + Sectors(length));
  }

  /** A creation marks no more than the inode and its data. */
  lemma CreateMarks(fs: Fs, name: Name, o: Outcomes, q: nat)
    requires Sane(fs) && q < |fs.used| && !fs.used[q] && Scan(fs.used, 0, 1, false).Some?
    requires q != Scan(fs.used, 0, 1, false).value
    ensures |Create(fs, name, 0, o).0.used| == |fs.used| && !Create(fs, name, 0, o).0.used[q]
  {
    hide Slots, DirAdd, FindOpen;
  }

  /**
   A second file of the same name: on the formatted disk the file "a" is created twice, the second time with no memory
   for the lookup's bounce buffer but enough for the rest.  Both calls succeed, and the directory has two entries "a".
   */
  lemma LookupCutShort()
    ensures exists fs :: Format(seq(8, _ => Zeros(SECTOR_SIZE)), true) == Some(fs) && Sane(fs)
              && var (fs1, ok1) := Create(fs, [97], 0, Plenty());
                 && ok1 && Inv(fs1) && Sane(fs1)
                 && var (fs2, ok2) := Create(fs1, [97], 0, Plenty().(lookup := 0)); ok2 && !Inv(fs2)
  {
    hide InvWith, Create, Slots, Format, Reaches, Find, FreeSlot, LostSector, IsOrphan;
    var fs := SmallDisk();
    var o, o' := Plenty(), Plenty().(lookup := 0);
    var es := Slots(fs.disk);
    MemorySpoilsNothing(es, fs.open, [97], o);
    ScanMarked(fs.used, 4, 1);
    RoomFor(fs, 5, o);
    CreateAccounts(fs, [97], 0, o, 0);
    CreateKeeps(fs, [97], 0, o);
    assert !es[0].inUse && StopAt(es, o.scan) == 0;
    var fs1 := Create(fs, [97], 0, o).0;
    InvIsSane(fs1);
    CreateMarks(fs, [97], o, 5);
    RoomFor(fs1, 5, o');
    var s :| Created(fs, fs1, [97], 0, 0, s);
    var es1 := Slots(fs1.disk);
    assert es1[0] == Entry(s, [97], true) && !es1[1].inUse;
    assert StopAt(es1, o'.scan) == 1;
    assert Spoils(es1, fs1.open, [97], o');
    CreateKeepsIff(fs1, [97], 0, o');
    CreateOk(fs1, [97], 0, o');
  }

  lemma RoomFor(fs: Fs, q: nat, o: Outcomes)
    requires q < |fs.used| && !fs.used[q] && o.dir && o.mark && o.Inode()
    ensures Reaches(fs, 0, o)
  {
    assert AllAre(fs.used, q, 1, false);
    var s := Scan(fs.used, 0, 1, false).value;
    assert AllAre(SetRange(fs.used, s, 1, true), 0, Sectors(0), false);
  }

  lemma CreateOk(fs: Fs, name: Name, length: nat, o: Outcomes)
    requires Inv(fs) && Sane(fs) && length <= MAX_SIZE && Reaches(fs, length, o) && Adds(Slots(fs.disk), name, o)
    ensures Create(fs, name, length, o).1
  {
    hide DirOk, OpenOk, CopyOk, RemovedOk, NamedSet, OpenSet, Slots, RootOk, InodeOpen, InodeClose, CreateAt, SpaceOk,
         Adds;
    var pins := multiset{FREE_MAP_SECTOR};
    SizesAgree(fs, pins);
    assert ROOT_DIR_SECTOR in Live(Slots(fs.disk), fs.open);
    InodeOpenKeeps(fs, ROOT_DIR_SECTOR, true, pins);
    var s := Scan(fs.used, 0, 1, false).value;
    assert !fs.used[s];
    AddsWhenCreated(InodeOpen(fs, ROOT_DIR_SECTOR, true).0, pins + multiset{ROOT_DIR_SECTOR}, s, name, length, o);
  }
}
