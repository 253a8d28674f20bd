/**
 Demand paging (vm/frame.c, vm/page.c, userprog/exception.c): the page-fault
 handler fills a frame from the supplemental page table, evicting another frame
 when the user pool is exhausted.

 The model is sequential: one fault is handled to its end before the next access.
 `mem` is the memory a process should observe: per page, the byte last written at
 each offset or else the page's initial content, with `Unknown` where the source
 promises nothing (stack bytes never written, and bytes written to the part of a
 mapped file page that is not written back).
 */
module Paging {
  import opened Base
  import opened FrameTable
  import Disk
  import Swap

  const MAX_STACK_SIZE: nat := 2000
  const STACK_BOTTOM: nat := PHYS_BASE - PGSIZE * MAX_STACK_SIZE

  /** An entry of the supplemental page table. */
  datatype SupPage =
    | ExecPage(file: nat, offset: nat, zeroAfter: nat, writable: bool)
    | FilePage(file: nat, offset: nat, zeroAfter: nat)
    | ZeroPage
    | SwapPage(slot: nat, dirty: bool, evicted: Option<SupPage>)

  type SupTable = map<PageKey, SupPage>

  /** The bytes of an open file. */
  type File = seq<byte>

  datatype Vm = Vm(
    frames: seq<Frame>,       // frame_list, front to back
    hand: Hand,
    pd: PageMap,
    sup: SupTable,
    used: seq<bool>,          // the user pool's used_map
    ram: seq<Page>,           // the contents of the user pool
    files: seq<File>,
    denied: set<nat>,         // files whose inode denies writes
    swap: Swap.SwapDisk)

  // --------------------------------------------------------- backing store

  /** The whole initialised part of the page can be read from its file. */
  predicate Fits(e: SupPage, files: seq<File>) {
    match e
    case ExecPage(f, o, z, _) => f < |files| && z <= PGSIZE && o + z <= |files[f]|
    case FilePage(f, o, z) => f < |files| && z <= PGSIZE && o + z <= |files[f]|
    case ZeroPage => true
    case SwapPage(_, _, _) => false
  }

  /** What the fault handler loads for an EXEC, FILE or ZERO page. */
  function Backing(e: SupPage, files: seq<File>): (p: Page)
    requires Fits(e, files)
  {
    match e
    case ExecPage(f, o, z, _) => files[f][o..o + z] + Zeros(PGSIZE - z)
    case FilePage(f, o, z) => files[f][o..o + z] + Zeros(PGSIZE - z)
    case ZeroPage => Zeros(PGSIZE)
  }

  /**
   The byte at `i` of a page before any store: that of its file up to `zero_after`, then 0; nothing if the file is too
   short, or for a page that is in swap.
   */
  function FirstByte(e: SupPage, files: seq<File>, i: nat): (b: Option<byte>) {
    match e
    case ExecPage(f, o, z, _) => FileByte(files, f, o, z, i)
    case FilePage(f, o, z) => FileByte(files, f, o, z, i)
    case ZeroPage => Some(0)
    case SwapPage(_, _, _) => None
  }

  function FileByte(files: seq<File>, f: nat, o: nat, z: nat, i: nat): (b: Option<byte>) {
    if f < |files| && z <= PGSIZE && o + z <= |files[f]| then Some(if i < z then files[f][o + i] else 0) else None
  }

  /** The fault handler loads exactly the pages that have first bytes, and loads those. */
  lemma BackingIsFirst(e: SupPage, files: seq<File>, i: nat)
    requires i < PGSIZE
    ensures Fits(e, files) <==> FirstByte(e, files, i).Some?
    ensures Fits(e, files) ==> FirstByte(e, files, i) == Some(Backing(e, files)[i])
  {
  }

  /**
   How much of the file part of a page is transferred: without a bounce buffer, whole sectors from the start of one.
   */
  function Sent(e: SupPage, bounce: bool): (n: nat)
    requires e.ExecPage? || e.FilePage?
    ensures n <= e.zeroAfter && (bounce ==> n == e.zeroAfter)
    ensures !bounce ==> n == if e.offset % SECTOR_SIZE == 0 then e.zeroAfter - e.zeroAfter % SECTOR_SIZE else 0
  {
    Disk.Transfer(Disk.Node(0, e.offset + e.zeroAfter), e.zeroAfter, e.offset, bounce)
  }

  /** That is what the loops of `inode_read_at` and `inode_write_at` transfer, whatever follows in the file. */
  lemma SentIsTransfer(e: SupPage, files: seq<File>, bounce: bool, start: nat)
    requires (e.ExecPage? || e.FilePage?) && Fits(e, files)
    ensures Disk.Transfer(Disk.Node(start, |files[e.file]|), e.zeroAfter, e.offset, bounce) == Sent(e, bounce)
  {
  }

  /** The page can be loaded; `read` says whether there is memory for the bounce buffer of `file_read`. */
  predicate CanRead(e: SupPage, files: seq<File>, read: bool) {
    Fits(e, files) && (e.ZeroPage? || Sent(e, read) == e.zeroAfter)
  }

  /**
   `file_write_at` of the first `zero_after` bytes of a frame: nothing if writes are denied, and no part of a sector
   if there is no memory for the bounce buffer, as `write` says.
   */
  function WriteBack(files: seq<File>, denied: set<nat>, e: SupPage, p: Page, write: bool): (r: seq<File>)
    requires e.FilePage? && Fits(e, files)
    ensures SameLengths(files, r)
  {
    var d, n := files[e.file], Sent(e, write);
    if e.file in denied then files
    else files[e.file := d[..e.offset] + p[..n] + d[e.offset + n..]]
  }

  /** Files never grow or shrink, so neither does what can be read from them. */
  ghost predicate SameLengths(files: seq<File>, files': seq<File>) {
    |files'| == |files| && forall f :: 0 <= f < |files| ==> |files'[f]| == |files[f]|
  }

  // -------------------------------------------------------------- eviction

  /**
   Whether memory is available while a fault is handled: for a page table, for the bounce buffers of the read that
   loads the page and of the write that saves the evicted one, and for the structures of frame and swap tables.
   */
  datatype Allocs = Allocs(table: bool, read: bool, write: bool, structs: bool)

  /** A step either completes, or the kernel panics (or runs into undefined behaviour). */
  datatype Result<T> = Done(vm: Vm, value: T) | Panic

  /** The unlinked list, once the frame at `v` is gone. */
  function Without(frames: seq<Frame>, v: nat): (r: seq<Frame>)
    requires v < |frames|
    ensures |r| == |frames| - 1
  {
    frames[..v] + frames[v + 1..]
  }

  /**
   Saving the evicted page: to its file, to swap, or not at all if it is clean.  What `file_write_at` returns is
   ignored, and so is a failure to allocate the swap slot, which is then written to.
   */
  function Save(vm: Vm, k: PageKey, p: Page, dirty: bool, ok: Allocs): (r: Option<Vm>)
    ensures r.Some? ==> r.value == vm.(sup := r.value.sup, files := r.value.files, swap := r.value.swap)
    ensures r.Some? ==> SameLengths(vm.files, r.value.files)
  {
    if !dirty then Some(vm)
    else if k in vm.sup && vm.sup[k].FilePage? then
      if Fits(vm.sup[k], vm.files) then Some(vm.(files := WriteBack(vm.files, vm.denied, vm.sup[k], p, ok.write)))
          else None
    else if !ok.structs then None
    else
      var (swap', slot) := Swap.Write(vm.swap, p);
      match slot
      case None => None
      case Some(t) =>
        var evicted := if k in vm.sup then Some(vm.sup[k]) else None;
        Some(vm.(swap := swap', sup := vm.sup[k := SwapPage(t, true, evicted)]))
  }

  /** The eviction of the frame at `v`, on which the hand stands: unmap, save, unlink, advance the hand. */
  function EvictAt(vm: Vm, v: nat, ok: Allocs): (r: Result<nat>)
    requires v < |vm.frames| && vm.frames[v].key in vm.pd && vm.frames[v].kpage < |vm.ram|
    ensures r.Done? ==> r.vm.denied == vm.denied && SameLengths(vm.files, r.vm.files)
  {
    var n := |vm.frames|;
    var f := vm.frames[v];
    match Save(vm.(pd := vm.pd - {f.key}), f.key, vm.ram[f.kpage], vm.pd[f.key].dirty, ok)
    case None => Panic
    case Some(vm1) =>
      var h := AfterRemove(At(v), n, v);
      if h == Dangling then Panic
      else Done(vm1.(frames := Without(vm.frames, v), hand := Settle(Next(h, n - 1), n - 1)), f.kpage)
  }

  /**
   `ft_replacement`: the second-chance scan, then the eviction; the value is the
   kernel page, now without a frame.  A list of one frame leaves the hand on freed
   memory, which is then dereferenced.
   */
  function Replace(vm: Vm, ok: Allocs): (r: Result<nat>)
    ensures r.Done? ==> r.vm.denied == vm.denied && SameLengths(vm.files, r.vm.files)
  {
    var n := |vm.frames|;
    var h := Settle(vm.hand, n);
    if n == 0 || !h.At? || h.i >= n || !SomeLoaded(vm.frames) then Panic
    else
      var v := Victim(vm.frames, vm.pd, h.i);
      var vm0 := vm.(pd := Scanned(vm.frames, vm.pd, h.i));
      if vm.frames[v].key !in vm0.pd || vm.frames[v].kpage >= |vm.ram| then Panic else EvictAt(vm0, v, ok)
  }

  /** The lowest clear bit of the pool's bitmap, or its length. */
  function FirstFree(used: seq<bool>): (i: nat)
    ensures i <= |used|
    ensures i < |used| ==> !used[i]
    ensures forall j :: 0 <= j < i ==> used[j]
  {
    if used == [] || !used[0] then 0
    else
      var i := FirstFree(used[1..]);
      assert forall j :: 1 <= j < i + 1 ==> used[j] == used[1..][j - 1];
      1 + i
  }

  /**
   `ft_get_page (PAL_USER)`: a kernel page from the pool, or from an eviction, and a frame, which is not checked for
   null.
   */
  function GetPage(vm: Vm, ok: Allocs): (r: Result<nat>)
    ensures r.Done? ==> ok.structs && r.vm.denied == vm.denied && SameLengths(vm.files, r.vm.files)
  {
    var i := FirstFree(vm.used);
    if !ok.structs then Panic
    else if i < |vm.used| then Done(vm.(used := vm.used[i := true]), i) else Replace(vm, ok)
  }

  // ---------------------------------------------------------------- faults

  predicate IsStackAccess(va: nat, esp: nat) {
    va < PHYS_BASE && va > STACK_BOTTOM && va + 32 >= esp
  }

  /** The outcome of making a page present: it is, or the process is killed. */
  datatype Outcome = Present | Killed

  /** The page is not installed after all: its frame is unlinked and the kernel page freed. */
  function GiveBack(vm: Vm, kpage: nat): (r: Vm) {
    if kpage < |vm.used| then vm.(used := vm.used[kpage := false]) else vm
  }

  /** `install_page` of a filled frame, and the frame's entry at the back of the list. */
  function Install(vm: Vm, k: PageKey, kpage: nat, p: Page, writable: bool, dirty: bool): (r: Vm) {
    if kpage < |vm.ram| then
      vm.(frames := vm.frames + [Frame(k, kpage, true)],
          pd := vm.pd[k := Pte(kpage, writable, false, dirty)],
          ram := vm.ram[kpage := p])
    else vm
  }

  /** `page_fault` for a page that is not present. */
  function PageFault(vm: Vm, k: PageKey, stack: bool, ok: Allocs): (r: Result<Outcome>) {
    if k !in vm.sup && !stack then Done(vm, Killed)
    else
      match GetPage(vm, ok)
      case Panic => Panic
      case Done(vm1, kp) =>
        if kp >= |vm1.ram| then Panic
        else Fill(vm1, k, kp, if k in vm.sup then Some(vm.sup[k]) else None, ok)
  }

  /** The frame is filled from wherever the page is, or given back. */
  function Fill(vm: Vm, k: PageKey, kp: nat, e: Option<SupPage>, ok: Allocs): (r: Result<Outcome>)
    requires kp < |vm.ram|
  {
    if e == None then Grow(vm, k, kp, ok)
    else if e.value.SwapPage? then SwapIn(vm, k, kp, e.value, ok)
    else ReadIn(vm, k, kp, e.value, ok)
  }

  /** A new stack page: the frame is installed with whatever it holds. */
  function Grow(vm: Vm, k: PageKey, kp: nat, ok: Allocs): (r: Result<Outcome>)
    requires kp < |vm.ram|
  {
    if ok.table then Done(Install(vm, k, kp, vm.ram[kp], true, false), Present)
    else Done(GiveBack(vm, kp), Killed)
  }

  /** The SWAP case: read the slot, free it, and put the entry it had replaced back. */
  function SwapIn(vm: Vm, k: PageKey, kp: nat, e: SupPage, ok: Allocs): (r: Result<Outcome>)
    requires kp < |vm.ram| && e.SwapPage?
  {
    if !ok.structs || e.slot + Swap.SECTORS_PER_FRAME > |vm.swap.disk| then Panic
    else
      var (swap', p) := Swap.Read(vm.swap, e.slot);
      var vm' := vm.(swap := swap', sup := Restored(vm.sup, k, e.evicted));
      if ok.table then Done(Install(vm', k, kp, p, true, e.dirty), Present)
      else Done(GiveBack(vm', kp), Killed)
  }

  function Restored(sup: SupTable, k: PageKey, evicted: Option<SupPage>): (r: SupTable) {
    if evicted.Some? then sup[k := evicted.value] else sup - {k}
  }

  /** The EXEC, FILE and ZERO cases; a short read kills the process. */
  function ReadIn(vm: Vm, k: PageKey, kp: nat, e: SupPage, ok: Allocs): (r: Result<Outcome>)
    requires kp < |vm.ram|
  {
    if CanRead(e, vm.files, ok.read) && ok.table
    then Done(Install(vm, k, kp, Backing(e, vm.files), !e.ExecPage? || e.writable, false), Present)
    else Done(GiveBack(vm, kp), Killed)
  }

  // -------------------------------------------------------------- accesses

  /** A user access; `esp` and `ok` matter only if it faults. */
  datatype Access =
    | Load(pid: nat, va: nat, esp: nat, ok: Allocs)
    | Store(pid: nat, va: nat, value: byte, esp: nat, ok: Allocs)
  {
    function Key(): (k: PageKey) { PageKey(pid, va / PGSIZE) }
    function Ofs(): (i: nat) ensures i < PGSIZE { va % PGSIZE }
  }

  /** What the program sees: a byte, a completed store, or its end. */
  datatype Reply = Byte(b: byte) | Stored | Dead

  /** Bring the page in if it is not present. */
  function Touch(vm: Vm, a: Access): (r: Result<Outcome>) {
    if a.Key() in vm.pd then Done(vm, Present)
    else PageFault(vm, a.Key(), IsStackAccess(a.va, a.esp), a.ok)
  }

  function Poke(p: Page, i: nat, b: byte): (r: Page)
    requires i < PGSIZE
  {
    p[i := b]
  }

  /** An access to a present page: the hardware sets the accessed and dirty bits. */
  function Hit(vm: Vm, a: Access): (r: Result<Reply>) {
    var k := a.Key();
    if k !in vm.pd || vm.pd[k].kpage >= |vm.ram| then Panic
    else
      var pte := vm.pd[k];
      var p := vm.ram[pte.kpage];
      match a
      case Load(_, _, _, _) =>
        Done(vm.(pd := vm.pd[k := pte.(accessed := true)]), Byte(p[a.Ofs()]))
      case Store(_, _, b, _, _) =>
        if !pte.writable then Done(vm, Dead)
        else
          Done(vm.(pd := vm.pd[k := pte.(accessed := true, dirty := true)],
                   ram := vm.ram[pte.kpage := Poke(p, a.Ofs(), b)]), Stored)
  }

  /** One access to its end. */
  function Do(vm: Vm, a: Access): (r: Result<Reply>) {
    match Touch(vm, a)
    case Panic => Panic
    case Done(vm1, out) => if out == Killed then Done(vm1, Dead) else Hit(vm1, a)
  }

  // --------------------------------------------------- the memory promised

  /** What is promised of a byte: nothing, its first content as it was never stored to, or the last store to it. */
  datatype Promise = Unknown | First(b: byte) | Last(b: byte)

  /** The bytes promised for a page. */
  type Image = s: seq<Promise> | |s| == PGSIZE witness seq(PGSIZE, _ => Unknown)
  type Mem = map<PageKey, Image>

  /** The image of a page; nothing is promised about a page that is not in the map. */
  function ImageOf(mem: Mem, k: PageKey): (img: Image) {
    if k in mem then mem[k] else seq(PGSIZE, _ => Unknown)
  }

  function PokeImage(img: Image, i: nat, b: Promise): (r: Image)
    requires i < PGSIZE
  {
    img[i := b]
  }

  ghost predicate Agrees(img: Image, p: Page) {
    forall i :: 0 <= i < PGSIZE && img[i] != Unknown ==> img[i].b == p[i]
  }

  /** A byte of a mapped file page that eviction does not write back. */
  predicate Lossy(origin: SupTable, denied: set<nat>, k: PageKey, i: nat) {
    && k in origin && origin[k].FilePage?
    && (origin[k].zeroAfter <= i || origin[k].file in denied)
  }

  /** An image without the stores to bytes from `n` on. */
  function CutImage(img: Image, n: nat): (r: Image)
    ensures forall i :: 0 <= i < PGSIZE ==> r[i] == if n <= i && img[i].Last? then Unknown else img[i]
  {
    var s: seq<Promise> := seq(PGSIZE, i requires 0 <= i < PGSIZE => if n <= i && img[i].Last? then Unknown
        else img[i]);
    s
  }

  /**
   What is left of the promised memory by an access to page `k` that may evict any other page: without a bounce
   buffer, the stores to the last part of a sector of a mapped page may be lost.
   */
  function Left(mem: Mem, origin: SupTable, k: PageKey, write: bool): (m: Mem) {
    if write then mem else map j | j in mem :: if j == k then mem[j] else CutPage(mem[j], origin, j)
  }

  function CutPage(img: Image, origin: SupTable, k: PageKey): (r: Image) {
    if k in origin && origin[k].FilePage? then CutImage(img, Sent(origin[k], false)) else img
  }

  /** The promised memory after one access that got the given reply. */
  function Observe(mem: Mem, origin: SupTable, denied: set<nat>, a: Access, r: Reply): (m: Mem) {
    Settled(Left(mem, origin, a.Key(), a.ok.write), origin, denied, a, r)
  }

  /** The same with nothing lost to an eviction. */
  function Settled(mem: Mem, origin: SupTable, denied: set<nat>, a: Access, r: Reply): (m: Mem) {
    if r == Dead then Forget(mem, a.pid)
    else match a
      case Load(_, _, _, _) => mem
      case Store(_, _, b, _, _) =>
        var kept := if Lossy(origin, denied, a.Key(), a.Ofs()) then Unknown else Last(b);
        mem[a.Key() := PokeImage(ImageOf(mem, a.Key()), a.Ofs(), kept)]
  }

  /** The bytes of one process are no longer promised. */
  function Forget(mem: Mem, pid: nat): (m: Mem) {
    map k | k in mem && k.pid != pid :: mem[k]
  }

  // -------------------------------------------------------------- invariant

  /** Frames, page table and user pool describe the same resident pages; `spare` kernel pages have no frame yet. */
  ghost predicate Shape(frames: seq<Frame>, pd: PageMap, used: seq<bool>, spare: set<nat>) {
    && (forall i :: 0 <= i < |frames| ==> FrameOk(pd, used, spare, frames[i]))
    && (forall i, j :: 0 <= i < j < |frames| ==> frames[i].kpage != frames[j].kpage)
    && (forall k :: k in pd ==> HoldsKey(frames, k))
    && (forall p :: 0 <= p < |used| && used[p] ==> p in spare || HoldsPage(frames, p))
    && (forall p :: p in spare ==> p < |used| && used[p])
  }

  ghost predicate FrameOk(pd: PageMap, used: seq<bool>, spare: set<nat>, f: Frame) {
    && f.loaded && f.kpage < |used| && used[f.kpage] && f.kpage !in spare
    && f.key in pd && pd[f.key].kpage == f.kpage
  }

  ghost predicate HoldsKey(frames: seq<Frame>, k: PageKey) {
    exists i :: 0 <= i < |frames| && frames[i].key == k
  }

  ghost predicate HoldsPage(frames: seq<Frame>, p: nat) {
    exists i :: 0 <= i < |frames| && frames[i].kpage == p
  }

  /** Mapped regions of a file that can be written overlap no other mapping of it. */
  ghost predicate Layout(origin: SupTable, denied: set<nat>) {
    && NoSwap(origin)
    && (forall k, k' :: k in origin && k' in origin && k != k' && origin[k].FilePage? && origin[k].file !in denied
          ==> Apart(origin[k], origin[k']))
  }

  ghost predicate NoSwap(origin: SupTable) {
    forall k :: k in origin ==> !origin[k].SwapPage?
  }

  ghost predicate Apart(e: SupPage, e': SupPage)
    requires e.FilePage?
  {
    e'.FilePage? || e'.ExecPage? ==>
      e.file != e'.file || e.offset + e.zeroAfter <= e'.offset || e'.offset + e'.zeroAfter <= e.offset
  }

  /** The page may be written: it is not an EXEC page of a read-only segment. */
  predicate MayDirty(origin: SupTable, k: PageKey) {
    k in origin && origin[k].ExecPage? ==> origin[k].writable
  }

  /** Every supplemental entry is the page's original one, or a swap entry that remembers it. */
  ghost predicate Tables(sup: SupTable, pd: PageMap, origin: SupTable, slots: Swap.Slots) {
    && (forall k :: k in origin ==> k in sup)
    && (forall k :: k in sup ==> EntryOk(sup[k], pd, origin, slots, k))
    && (forall k, k' :: k in sup && k' in sup && k != k' ==> SlotsDiffer(sup[k], sup[k']))
    && (forall t :: t in slots ==> HasSlot(sup, t))
  }

  ghost predicate EntryOk(e: SupPage, pd: PageMap, origin: SupTable, slots: Swap.Slots, k: PageKey) {
    if e.SwapPage? then
      && k !in pd && e.slot in slots && e.dirty
      && e.evicted == (if k in origin then Some(origin[k]) else None)
      && MayDirty(origin, k) && (k in origin ==> !origin[k].FilePage?)
    else k in origin && e == origin[k]
  }

  ghost predicate SlotsDiffer(e: SupPage, e': SupPage) {
    e.SwapPage? && e'.SwapPage? ==> e.slot != e'.slot
  }

  ghost predicate HasSlot(sup: SupTable, t: nat) {
    exists k :: k in sup && sup[k].SwapPage? && sup[k].slot == t
  }

  /** A resident page is writable as mapped, and if clean it equals its backing store. */
  ghost predicate Resident(pte: Pte, ram: seq<Page>, files: seq<File>, origin: SupTable, mem: Mem, k: PageKey) {
    && pte.kpage < |ram|
    && (pte.writable <==> MayDirty(origin, k))
    && (pte.dirty ==> pte.writable)
    && (k in origin && (origin[k].FilePage? || !pte.dirty) ==> Fits(origin[k], files))
    && (!pte.dirty ==> if k in origin then ram[pte.kpage] == Backing(origin[k], files) else k !in mem)
    && (k in mem ==> Agrees(mem[k], ram[pte.kpage]))
  }

  /** What is promised about a page that is not resident is kept in swap or in its backing store. */
  ghost predicate Stashed(sup: SupTable, files: seq<File>, slots: Swap.Slots, img: Image, k: PageKey) {
    && k in sup
    && if sup[k].SwapPage? then sup[k].slot in slots && Agrees(img, slots[sup[k].slot])
       else Fits(sup[k], files) ==> Agrees(img, Backing(sup[k], files))
  }

  /**
   A byte never stored to still has its first value in the backing store; no store is promised that is not written back.
   */
  ghost predicate Intact(files: seq<File>, denied: set<nat>, origin: SupTable, img: Image, k: PageKey)
    requires k in origin
  {
    && (Fits(origin[k], files) ==>
          forall i :: 0 <= i < PGSIZE && img[i].First? ==> img[i].b == Backing(origin[k], files)[i])
    && (forall i :: 0 <= i < PGSIZE && img[i].Last? ==> !Lossy(origin, denied, k, i))
  }

  /** The promised memory is where the tables say it is. */
  ghost predicate Kept(pd: PageMap, ram: seq<Page>, sup: SupTable, files: seq<File>, denied: set<nat>, origin: SupTable,
      slots: Swap.Slots, mem: Mem) {
    && (forall k :: k in pd ==> Resident(pd[k], ram, files, origin, mem, k))
    && (forall k :: k in mem && k !in pd ==> Stashed(sup, files, slots, mem[k], k))
    && (forall k :: k in mem && k in origin ==> Intact(files, denied, origin, mem[k], k))
  }

  ghost predicate Inv(vm: Vm, origin: SupTable, slots: Swap.Slots, mem: Mem, spare: set<nat>) {
    && |vm.ram| == |vm.used|
    && HandOk(vm.hand, |vm.frames|)
    && Shape(vm.frames, vm.pd, vm.used, spare)
    && Layout(origin, vm.denied)
    && Swap.Refines(vm.swap, slots)
    && Tables(vm.sup, vm.pd, origin, slots)
    && Kept(vm.pd, vm.ram, vm.sup, vm.files, vm.denied, origin, slots, mem)
  }

  // -------------------------------------------------------- eviction proofs

  /** Writing one mapped page back leaves what any other page loads unchanged. */
  lemma WriteBackElsewhere(origin: SupTable, files: seq<File>, denied: set<nat>, k: PageKey, k': PageKey, p: Page,
                           write: bool)
    requires Layout(origin, denied) && k in origin && k' in origin && k != k'
    requires origin[k].FilePage? && Fits(origin[k], files)
    ensures var files' := WriteBack(files, denied, origin[k], p, write);
            && (Fits(origin[k'], files') <==> Fits(origin[k'], files))
            && (Fits(origin[k'], files) ==> Backing(origin[k'], files') == Backing(origin[k'], files))
  {
    hide Sent;
    var e, e' := origin[k], origin[k'];
    assert e.file !in denied ==> Apart(e, e');
    var files' := WriteBack(files, denied, e, p, write);
    if Fits(e', files) && !e'.ZeroPage? && e'.file == e.file && e.file !in denied {
      var d, d' := files[e.file], files'[e.file];
      assert forall i :: 0 <= i < |d| && !(e.offset <= i < e.offset + e.zeroAfter) ==> d'[i] == d[i];
      assert d'[e'.offset..e'.offset + e'.zeroAfter] == d[e'.offset..e'.offset + e'.zeroAfter];
    }
  }

  /** The page written back reloads with the bytes that were sent, unless writes are denied. */
  lemma WriteBackHere(e: SupPage, files: seq<File>, denied: set<nat>, p: Page, write: bool)
    requires e.FilePage? && Fits(e, files)
    ensures var files' := WriteBack(files, denied, e, p, write);
            && Fits(e, files')
            && forall i :: 0 <= i < PGSIZE ==>
                 Backing(e, files')[i] == if i < Sent(e, write) && e.file !in denied then p[i] else Backing(e, files)[i]
  {
    hide Sent;
    var n, d, files' := Sent(e, write), files[e.file], WriteBack(files, denied, e, p, write);
    if e.file !in denied {
      var d' := files'[e.file];
      assert forall i :: 0 <= i < |d| ==> d'[i] == if e.offset <= i < e.offset + n then p[i - e.offset] else d[i];
    }
  }

  /** Two page maps that differ in accessed bits only. */
  ghost predicate SameBut(pd: PageMap, pd': PageMap) {
    pd'.Keys == pd.Keys && forall k :: k in pd ==> pd'[k] == pd[k].(accessed := pd'[k].accessed)
  }

  /** Accessed bits are invisible to the invariant. */
  lemma AccessedInvisible(vm: Vm, origin: SupTable, slots: Swap.Slots, mem: Mem, spare: set<nat>, pd': PageMap)
    requires Inv(vm, origin, slots, mem, spare) && SameBut(vm.pd, pd')
    ensures Inv(vm.(pd := pd'), origin, slots, mem, spare)
  {
    assert Shape(vm.frames, pd', vm.used, spare) by {
      forall i | 0 <= i < |vm.frames| ensures FrameOk(pd', vm.used, spare, vm.frames[i]) {
        assert FrameOk(vm.pd, vm.used, spare, vm.frames[i]);
      }
    }
    assert Tables(vm.sup, pd', origin, slots) by {
      forall k | k in vm.sup ensures EntryOk(vm.sup[k], pd', origin, slots, k) {
        assert EntryOk(vm.sup[k], vm.pd, origin, slots, k);
      }
    }
    forall k | k in pd' ensures Resident(pd'[k], vm.ram, vm.files, origin, mem, k) {
      assert Resident(vm.pd[k], vm.ram, vm.files, origin, mem, k);
    }
  }

  /** Every frame but the `v`th stays on the list. */
  lemma WithoutHolds(frames: seq<Frame>, v: nat, i: nat)
    requires v < |frames| && i < |frames| && i != v
    ensures HoldsKey(Without(frames, v), frames[i].key) && HoldsPage(Without(frames, v), frames[i].kpage)
  {
    assert Without(frames, v)[if i < v then i else i - 1] == frames[i];
  }

  /** Unlinking the victim keeps frames, page table and pool in step; its kernel page is spare. */
  lemma UnlinkKeepsShape(frames: seq<Frame>, pd: PageMap, used: seq<bool>, v: nat)
    requires Shape(frames, pd, used, {}) && v < |frames|
    ensures Shape(Without(frames, v), pd - {frames[v].key}, used, {frames[v].kpage})
  {
    hide Without, HoldsKey, HoldsPage, FrameOk;
    var f := frames[v];
    var rest, pd' := Without(frames, v), pd - {f.key};
    assert used[f.kpage] && f.kpage < |used| by { assert FrameOk(pd, used, {}, f); UsedPage(pd, used, f); }
    forall i, j | 0 <= i < j < |rest| ensures rest[i].kpage != rest[j].kpage {
      UnlinkedFrame(frames, pd, used, v, i);
      UnlinkedFrame(frames, pd, used, v, j);
    }
    forall i | 0 <= i < |rest| ensures FrameOk(pd', used, {f.kpage}, rest[i]) {
      UnlinkedFrame(frames, pd, used, v, i);
    }
    forall k | k in pd' ensures HoldsKey(rest, k) {
      UnlinkedKey(frames, v, k);
    }
    forall p | 0 <= p < |used| && used[p] && p != f.kpage ensures HoldsPage(rest, p) {
      UnlinkedPage(frames, v, p);
    }
  }

  lemma UsedPage(pd: PageMap, used: seq<bool>, f: Frame)
    requires FrameOk(pd, used, {}, f)
    ensures f.kpage < |used| && used[f.kpage]
  {
  }

  /** The frames left are the others, each still right for its own page. */
  lemma UnlinkedFrame(frames: seq<Frame>, pd: PageMap, used: seq<bool>, v: nat, i: nat)
    requires Shape(frames, pd, used, {}) && v < |frames| && i < |frames| - 1
    ensures Without(frames, v)[i] == frames[if i < v then i else i + 1]
    ensures FrameOk(pd - {frames[v].key}, used, {frames[v].kpage}, Without(frames, v)[i])
  {
    var j := if i < v then i else i + 1;
    assert FrameOk(pd, used, {}, frames[j]) && FrameOk(pd, used, {}, frames[v]);
    assert if j < v then frames[j].kpage != frames[v].kpage else frames[v].kpage != frames[j].kpage;
  }

  lemma UnlinkedKey(frames: seq<Frame>, v: nat, k: PageKey)
    requires v < |frames| && HoldsKey(frames, k) && k != frames[v].key
    ensures HoldsKey(Without(frames, v), k)
  {
    var i :| 0 <= i < |frames| && frames[i].key == k;
    WithoutHolds(frames, v, i);
  }

  lemma UnlinkedPage(frames: seq<Frame>, v: nat, p: nat)
    requires v < |frames| && HoldsPage(frames, p) && p != frames[v].kpage
    ensures HoldsPage(Without(frames, v), p)
  {
    var i :| 0 <= i < |frames| && frames[i].kpage == p;
    WithoutHolds(frames, v, i);
  }

  /** Dropping a clean page loses nothing: its bytes are its backing store's. */
  lemma DropClean(vm: Vm, origin: SupTable, slots: Swap.Slots, mem: Mem, k: PageKey)
    requires Inv(vm, origin, slots, mem, {}) && k in vm.pd && !vm.pd[k].dirty
    ensures Tables(vm.sup, vm.pd - {k}, origin, slots)
    ensures Kept(vm.pd - {k}, vm.ram, vm.sup, vm.files, vm.denied, origin, slots, mem)
  {
    TablesShrink(vm.sup, vm.pd, origin, slots, k);
    assert Resident(vm.pd[k], vm.ram, vm.files, origin, mem, k);
    if k in mem {
      assert EntryOk(vm.sup[k], vm.pd, origin, slots, k);
      assert Stashed(vm.sup, vm.files, slots, mem[k], k);
    }
  }

  lemma TablesShrink(sup: SupTable, pd: PageMap, origin: SupTable, slots: Swap.Slots, k: PageKey)
    requires Tables(sup, pd, origin, slots)
    ensures Tables(sup, pd - {k}, origin, slots)
  {
    forall j | j in sup ensures EntryOk(sup[j], pd - {k}, origin, slots, j) {
      assert EntryOk(sup[j], pd, origin, slots, j);
    }
  }

  /** With a bounce buffer every store is written back; without one, the stores still promised are. */
  ghost predicate Spared(mem: Mem, origin: SupTable, k: PageKey, write: bool) {
    !write && k in mem && k in origin && origin[k].FilePage? ==>
      forall i :: Sent(origin[k], false) <= i < PGSIZE ==> !mem[k][i].Last?
  }

  /** Writing a dirty mapped page back keeps every promised byte of it and of every other page. */
  lemma SaveToFile(vm: Vm, origin: SupTable, slots: Swap.Slots, mem: Mem, k: PageKey, write: bool)
    requires Inv(vm, origin, slots, mem, {}) && k in vm.pd && k in origin && origin[k].FilePage?
    requires Spared(mem, origin, k, write)
    ensures Fits(origin[k], vm.files) && vm.pd[k].kpage < |vm.ram|
    ensures var files' := WriteBack(vm.files, vm.denied, origin[k], vm.ram[vm.pd[k].kpage], write);
            && Tables(vm.sup, vm.pd - {k}, origin, slots)
            && Kept(vm.pd - {k}, vm.ram, vm.sup, files', vm.denied, origin, slots, mem)
  {
    hide Sent, Spared, WriteBack, Shape;
    TablesShrink(vm.sup, vm.pd, origin, slots, k);
    assert Resident(vm.pd[k], vm.ram, vm.files, origin, mem, k);
    var p := vm.ram[vm.pd[k].kpage];
    var files' := WriteBack(vm.files, vm.denied, origin[k], p, write);
    WriteBackHere(origin[k], vm.files, vm.denied, p, write);
    forall j | j in vm.pd && j != k ensures Resident(vm.pd[j], vm.ram, files', origin, mem, j) {
      assert Resident(vm.pd[j], vm.ram, vm.files, origin, mem, j);
      if j in origin { WriteBackElsewhere(origin, vm.files, vm.denied, k, j, p, write); }
    }
    assert EntryOk(vm.sup[k], vm.pd, origin, slots, k);
    forall j | j in mem && j !in vm.pd - {k} ensures Stashed(vm.sup, files', slots, mem[j], j) {
      if j == k {
        FileKeepsImage(vm.files, vm.denied, origin, mem, k, p, write);
      } else {
        assert Stashed(vm.sup, vm.files, slots, mem[j], j);
        assert EntryOk(vm.sup[j], vm.pd, origin, slots, j);
        if j in origin { WriteBackElsewhere(origin, vm.files, vm.denied, k, j, p, write); }
      }
    }
    forall j | j in mem && j in origin ensures Intact(files', vm.denied, origin, mem[j], j) {
      assert Intact(vm.files, vm.denied, origin, mem[j], j);
      if j != k {
        WriteBackElsewhere(origin, vm.files, vm.denied, k, j, p, write);
      } else {
        FileKeepsImage(vm.files, vm.denied, origin, mem, k, p, write);
      }
    }
  }

  /** What the written-back page reloads still agrees with the promise. */
  lemma FileKeepsImage(files: seq<File>, denied: set<nat>, origin: SupTable, mem: Mem, k: PageKey, p: Page, write: bool)
    requires k in mem && k in origin && origin[k].FilePage? && Fits(origin[k], files)
    requires Agrees(mem[k], p) && Intact(files, denied, origin, mem[k], k) && Spared(mem, origin, k, write)
    ensures var files' := WriteBack(files, denied, origin[k], p, write);
            && Fits(origin[k], files')
            && Agrees(mem[k], Backing(origin[k], files')) && Intact(files', denied, origin, mem[k], k)
  {
    hide Sent, Backing, WriteBack;
    var e := origin[k];
    WriteBackHere(e, files, denied, p, write);
    forall i | 0 <= i < PGSIZE && mem[k][i] != Unknown
      ensures mem[k][i].b == Backing(e, WriteBack(files, denied, e, p, write))[i]
    {
      assert mem[k][i].Last? ==> !Lossy(origin, denied, k, i) && i < Sent(e, write);
    }
  }

  /** Writing a dirty page to a fresh swap slot keeps the tables exact ... */
  lemma SwapOutTables(sup: SupTable, pd: PageMap, origin: SupTable, slots: Swap.Slots, k: PageKey, t: nat, p: Page)
    requires NoSwap(origin) && Tables(sup, pd, origin, slots) && t !in slots
    requires k in pd && MayDirty(origin, k) && (k in origin ==> !origin[k].FilePage?)
    ensures var evicted := if k in sup then Some(sup[k]) else None;
            Tables(sup[k := SwapPage(t, true, evicted)], pd - {k}, origin, slots[t := p])
  {
    var evicted := if k in sup then Some(sup[k]) else None;
    var sup', slots' := sup[k := SwapPage(t, true, evicted)], slots[t := p];
    forall j | j in sup' ensures EntryOk(sup'[j], pd - {k}, origin, slots', j) {
      if j in sup { assert EntryOk(sup[j], pd, origin, slots, j); }
    }
    forall j, j' | j in sup' && j' in sup' && j != j' ensures SlotsDiffer(sup'[j], sup'[j']) {
      if j in sup { assert EntryOk(sup[j], pd, origin, slots, j); }
      if j' in sup { assert EntryOk(sup[j'], pd, origin, slots, j'); }
    }
    forall u | u in slots' ensures HasSlot(sup', u) {
      if u == t {
        assert sup'[k].slot == t;
      } else {
        assert HasSlot(sup, u);
        var j :| j in sup && sup[j].SwapPage? && sup[j].slot == u;
        assert EntryOk(sup[j], pd, origin, slots, j);
        assert sup'[j] == sup[j];
      }
    }
  }

  /** ... and the promised bytes of the page are in the slot. */
  lemma SwapOutKept(vm: Vm, origin: SupTable, slots: Swap.Slots, mem: Mem, k: PageKey, t: nat, e: SupPage)
    requires Inv(vm, origin, slots, mem, {}) && t !in slots && k in vm.pd && vm.pd[k].kpage < |vm.ram|
    requires e.SwapPage? && e.slot == t
    ensures Kept(vm.pd - {k}, vm.ram, vm.sup[k := e], vm.files, vm.denied, origin, slots[t := vm.ram[vm.pd[k].kpage]],
            mem)
  {
    var sup', slots' := vm.sup[k := e], slots[t := vm.ram[vm.pd[k].kpage]];
    forall j | j in mem && j !in vm.pd - {k} ensures Stashed(sup', vm.files, slots', mem[j], j) {
      if j == k {
        assert Resident(vm.pd[k], vm.ram, vm.files, origin, mem, k);
      } else {
        assert Stashed(vm.sup, vm.files, slots, mem[j], j);
      }
    }
  }

  /**
   Saving succeeds unless the page is dirty, not a mapped file page, and there is no swap slot or no memory to note one.
   */
  lemma SaveKeeps(vm: Vm, origin: SupTable, slots: Swap.Slots, mem: Mem, k: PageKey, ok: Allocs)
    returns (slots': Swap.Slots)
    requires Inv(vm, origin, slots, mem, {}) && k in vm.pd && vm.pd[k].kpage < |vm.ram|
    requires Spared(mem, origin, k, ok.write)
    ensures match Save(vm.(pd := vm.pd - {k}), k, vm.ram[vm.pd[k].kpage], vm.pd[k].dirty, ok)
            case None =>
              && vm.pd[k].dirty && (k in origin ==> !origin[k].FilePage?)
              && (SwapFull(vm.swap, slots) || !ok.structs)
            case Some(vm') =>
              && vm' == vm.(pd := vm.pd - {k}, sup := vm'.sup, files := vm'.files, swap := vm'.swap)
              && Swap.Refines(vm'.swap, slots')
              && Tables(vm'.sup, vm'.pd, origin, slots')
              && Kept(vm'.pd, vm'.ram, vm'.sup, vm'.files, vm'.denied, origin, slots', mem)
  {
    hide WriteBack, Spared;
    slots' := slots;
    var p := vm.ram[vm.pd[k].kpage];
    assert Resident(vm.pd[k], vm.ram, vm.files, origin, mem, k);
    if k in vm.sup { assert EntryOk(vm.sup[k], vm.pd, origin, slots, k); }
    if !vm.pd[k].dirty {
      DropClean(vm, origin, slots, mem, k);
    } else if k in origin && origin[k].FilePage? {
      SaveToFile(vm, origin, slots, mem, k, ok.write);
    } else if ok.structs {
      Swap.WriteRefines(vm.swap, slots, p);
      var (swap', r) := Swap.Write(vm.swap, p);
      if r.Some? {
        slots' := slots[r.value := p];
        var e := SwapPage(r.value, true, if k in vm.sup then Some(vm.sup[k]) else None);
        SwapOutTables(vm.sup, vm.pd, origin, slots, k, r.value, p);
        SwapOutKept(vm, origin, slots, mem, k, r.value, e);
      }
    }
  }

  /** Every whole slot of the swap disk is taken. */
  ghost predicate SwapFull(s: Swap.SwapDisk, slots: Swap.Slots) {
    forall t: nat :: t % Swap.SECTORS_PER_FRAME == 0 && t + Swap.SECTORS_PER_FRAME <= |s.disk| ==> t in slots.Keys
  }

  /** The scan finds a loaded frame whose page is present, and changes accessed bits only. */
  lemma ScanFinds(vm: Vm, ok: Allocs) returns (vm0: Vm, v: nat)
    requires Shape(vm.frames, vm.pd, vm.used, {}) && HandOk(vm.hand, |vm.frames|)
    requires |vm.frames| > 0 && |vm.ram| == |vm.used|
    ensures vm0 == vm.(pd := vm0.pd) && SameBut(vm.pd, vm0.pd) && v < |vm.frames|
    ensures var f := vm.frames[v]; f.key in vm0.pd && vm0.pd[f.key].kpage == f.kpage < |vm.ram|
    ensures Replace(vm, ok) == EvictAt(vm0, v, ok)
  {
    hide EvictAt;
    assert FrameOk(vm.pd, vm.used, {}, vm.frames[0]);
    var h := Settle(vm.hand, |vm.frames|);
    v := Victim(vm.frames, vm.pd, h.i);
    assert FrameOk(vm.pd, vm.used, {}, vm.frames[v]);
    vm0 := vm.(pd := Scanned(vm.frames, vm.pd, h.i));
  }

  /** An eviction keeps the promised memory of every process, as far as the write-back can. */
  lemma EvictAtKeepsInv(vm: Vm, origin: SupTable, slots: Swap.Slots, mem: Mem, v: nat, ok: Allocs)
    returns (slots': Swap.Slots)
    requires Inv(vm, origin, slots, mem, {}) && v < |vm.frames|
    requires var f := vm.frames[v];
             f.key in vm.pd && vm.pd[f.key].kpage == f.kpage < |vm.ram| && Spared(mem, origin, f.key, ok.write)
    ensures match EvictAt(vm, v, ok)
            case Panic => |vm.frames| == 1
              || (vm.pd[vm.frames[v].key].dirty && (SwapFull(vm.swap, slots) || !ok.structs))
            case Done(vm', kp) => |vm.frames| >= 2 && kp < |vm'.ram| && Inv(vm', origin, slots', mem, {kp})
  {
    hide Shape, Tables, Kept, Layout, Save, SwapFull, Spared;
    var n := |vm.frames|;
    slots' := SaveKeeps(vm, origin, slots, mem, vm.frames[v].key, ok);
    UnlinkKeepsShape(vm.frames, vm.pd, vm.used, v);
    RemoveDanglesIff(At(v), n, v);
  }

  /** Nothing is promised of any page but `k` that a write-back would lose. */
  ghost predicate AllSpared(mem: Mem, origin: SupTable, k: PageKey, write: bool) {
    forall j :: j in mem && j != k ==> Spared(mem, origin, j, write)
  }

  /**
   Eviction on behalf of an absent page keeps the promised memory of every process.  It fails only if there are
   fewer than two frames, or if the victim must go to swap and there is no slot or no memory to note one.
   */
  lemma ReplaceKeepsInv(vm: Vm, origin: SupTable, slots: Swap.Slots, mem: Mem, k: PageKey, ok: Allocs)
    returns (slots': Swap.Slots)
    requires Inv(vm, origin, slots, mem, {}) && k !in vm.pd && AllSpared(mem, origin, k, ok.write)
    ensures match Replace(vm, ok)
            case Panic => |vm.frames| < 2 || SwapFull(vm.swap, slots) || !ok.structs
            case Done(vm', kp) => |vm.frames| >= 2 && kp < |vm'.ram| && Inv(vm', origin, slots', mem, {kp})
  {
    hide Spared;
    slots' := slots;
    if |vm.frames| > 0 {
      var vm0, v := ScanFinds(vm, ok);
      AccessedInvisible(vm, origin, slots, mem, {}, vm0.pd);
      NotPromised(mem, origin, vm.frames[v].key, ok.write);
      slots' := EvictAtKeepsInv(vm0, origin, slots, mem, v, ok);
    }
  }

  lemma NotPromised(mem: Mem, origin: SupTable, k: PageKey, write: bool)
    ensures k !in mem ==> Spared(mem, origin, k, write)
  {
  }

  /** Cutting the promises makes them safe from a write-back without a bounce buffer. */
  lemma LeftIsSpared(mem: Mem, origin: SupTable, k: PageKey, write: bool)
    ensures AllSpared(Left(mem, origin, k, write), origin, k, write)
  {
    hide Sent;
  }

  // ----------------------------------------------------------- fault proofs

  /** A kernel page for the fault: promised memory is unchanged, and the page has no frame. */
  lemma GetPageKeepsInv(vm: Vm, origin: SupTable, slots: Swap.Slots, mem: Mem, k: PageKey, ok: Allocs)
    returns (slots': Swap.Slots)
    requires Inv(vm, origin, slots, mem, {}) && k !in vm.pd && AllSpared(mem, origin, k, ok.write)
    ensures match GetPage(vm, ok)
            case Panic => OutOfMemory(vm, slots, ok)
            case Done(vm', kp) => kp < |vm'.ram| && Inv(vm', origin, slots', mem, {kp})
  {
    hide Shape, Tables, Kept, Layout, AllSpared, Replace, Swap.Refines, SwapFull;
    slots' := slots;
    var i := FirstFree(vm.used);
    if i < |vm.used| {
      PoolKeepsShape(vm.frames, vm.pd, vm.used, i);
    } else {
      slots' := ReplaceKeepsInv(vm, origin, slots, mem, k, ok);
    }
  }

  lemma PoolKeepsShape(frames: seq<Frame>, pd: PageMap, used: seq<bool>, i: nat)
    requires Shape(frames, pd, used, {}) && i < |used| && !used[i]
    ensures Shape(frames, pd, used[i := true], {i})
  {
    forall j | 0 <= j < |frames| ensures FrameOk(pd, used[i := true], {i}, frames[j]) {
      assert FrameOk(pd, used, {}, frames[j]);
    }
  }

  /** The spare page goes back to the pool. */
  lemma GiveBackKeepsInv(vm: Vm, origin: SupTable, slots: Swap.Slots, mem: Mem, kp: nat)
    requires Inv(vm, origin, slots, mem, {kp})
    ensures Inv(GiveBack(vm, kp), origin, slots, mem, {})
  {
    var used' := vm.used[kp := false];
    forall j | 0 <= j < |vm.frames| ensures FrameOk(vm.pd, used', {}, vm.frames[j]) {
      assert FrameOk(vm.pd, vm.used, {kp}, vm.frames[j]);
    }
    assert Shape(vm.frames, vm.pd, used', {});
  }

  lemma InstallShape(frames: seq<Frame>, pd: PageMap, used: seq<bool>, k: PageKey, kp: nat, pte: Pte)
    requires Shape(frames, pd, used, {kp}) && k !in pd && pte.kpage == kp
    ensures Shape(frames + [Frame(k, kp, true)], pd[k := pte], used, {})
  {
    var frames', pd' := frames + [Frame(k, kp, true)], pd[k := pte];
    forall i | 0 <= i < |frames'| ensures FrameOk(pd', used, {}, frames'[i]) {
      if i < |frames| { assert FrameOk(pd, used, {kp}, frames[i]); }
    }
    forall i, j | 0 <= i < j < |frames'| ensures frames'[i].kpage != frames'[j].kpage {
      assert FrameOk(pd, used, {kp}, frames[i]);
    }
    forall j | j in pd' ensures HoldsKey(frames', j) {
      if j == k {
        assert frames'[|frames|].key == k;
      } else {
        assert HoldsKey(frames, j);
        var i :| 0 <= i < |frames| && frames[i].key == j;
        assert frames'[i].key == j;
      }
    }
    forall p | 0 <= p < |used| && used[p] ensures HoldsPage(frames', p) {
      if p == kp {
        assert frames'[|frames|].kpage == kp;
      } else {
        assert HoldsPage(frames, p);
        var i :| 0 <= i < |frames| && frames[i].kpage == p;
        assert frames'[i].kpage == p;
      }
    }
  }

  /** The second memory promises less, or the same. */
  ghost predicate Weaker(mem: Mem, mem': Mem) {
    forall k :: k in mem' ==> k in mem && forall i :: 0 <= i < PGSIZE ==>
            mem'[k][i] == Unknown || mem'[k][i] == mem[k][i]
  }

  /** Promising less never breaks the invariant. */
  lemma PromiseLess(vm: Vm, origin: SupTable, slots: Swap.Slots, mem: Mem, mem': Mem, spare: set<nat>)
    requires Inv(vm, origin, slots, mem, spare) && Weaker(mem, mem')
    ensures Inv(vm, origin, slots, mem', spare)
  {
    hide Shape, Tables, Layout, HandOk, Swap.Refines, Backing, Lossy;
    forall k | k in vm.pd ensures Resident(vm.pd[k], vm.ram, vm.files, origin, mem', k) {
      assert Resident(vm.pd[k], vm.ram, vm.files, origin, mem, k);
    }
    forall k | k in mem' && k !in vm.pd ensures Stashed(vm.sup, vm.files, slots, mem'[k], k) {
      assert Stashed(vm.sup, vm.files, slots, mem[k], k);
    }
    forall k | k in mem' && k in origin ensures Intact(vm.files, vm.denied, origin, mem'[k], k) {
      assert Intact(vm.files, vm.denied, origin, mem[k], k);
    }
  }

  lemma LeftIsWeaker(mem: Mem, origin: SupTable, k: PageKey, write: bool)
    ensures Weaker(mem, Left(mem, origin, k, write))
  {
    hide Sent;
  }

  /** Installing one page leaves the other resident pages alone. */
  lemma InstallElsewhere(vm: Vm, origin: SupTable, mem: Mem, kp: nat, p: Page, k: PageKey, j: PageKey)
    requires Shape(vm.frames, vm.pd, vm.used, {kp}) && kp < |vm.ram| && j in vm.pd && j != k
    requires Resident(vm.pd[j], vm.ram, vm.files, origin, mem - {k}, j)
    ensures Resident(vm.pd[j], vm.ram[kp := p], vm.files, origin, mem, j)
  {
    assert HoldsKey(vm.frames, j);
    var i :| 0 <= i < |vm.frames| && vm.frames[i].key == j;
    assert FrameOk(vm.pd, vm.used, {kp}, vm.frames[i]);
  }

  /** Page `k` may be installed in the spare kernel page `kp` with the bytes `p`: they are what was promised of it. */
  ghost predicate Installable(vm: Vm, origin: SupTable, slots: Swap.Slots, mem: Mem, k: PageKey, kp: nat, p: Page,
      pte: Pte) {
    && Inv(vm, origin, slots, mem - {k}, {kp}) && k !in vm.pd && pte.kpage == kp < |vm.ram| && !pte.accessed
    && (k in vm.sup ==> !vm.sup[k].SwapPage?)
    && Resident(pte, vm.ram[kp := p], vm.files, origin, mem, k)
    && (k in mem && k in origin ==> Intact(vm.files, vm.denied, origin, mem[k], k))
  }

  /** Making a page present, filled with what was promised of it. */
  lemma InstallKeepsInv(vm: Vm, origin: SupTable, slots: Swap.Slots, mem: Mem, k: PageKey, kp: nat, p: Page, pte: Pte)
    requires Installable(vm, origin, slots, mem, k, kp, p, pte)
    ensures Inv(Install(vm, k, kp, p, pte.writable, pte.dirty), origin, slots, mem, {})
  {
    var vm' := Install(vm, k, kp, p, pte.writable, pte.dirty);
    assert vm'.pd == vm.pd[k := pte];
    InstallShape(vm.frames, vm.pd, vm.used, k, kp, pte);
    assert Tables(vm'.sup, vm'.pd, origin, slots) by {
      forall j | j in vm'.sup ensures EntryOk(vm'.sup[j], vm'.pd, origin, slots, j) {
        assert EntryOk(vm.sup[j], vm.pd, origin, slots, j);
      }
    }
    assert Kept(vm'.pd, vm'.ram, vm'.sup, vm'.files, vm'.denied, origin, slots, mem) by {
      forall j | j in vm'.pd ensures Resident(vm'.pd[j], vm'.ram, vm'.files, origin, mem, j) {
        if j != k { InstallElsewhere(vm, origin, mem, kp, p, k, j); }
      }
      forall j | j in mem && j !in vm'.pd ensures Stashed(vm'.sup, vm'.files, slots, mem[j], j) {
        assert j in mem - {k} && (mem - {k})[j] == mem[j];
      }
      forall j | j in mem && j in origin ensures Intact(vm'.files, vm'.denied, origin, mem[j], j) {
        assert j != k ==> j in mem - {k} && (mem - {k})[j] == mem[j];
      }
    }
  }

  /** Evicting one page touches neither the entry nor the absence of another. */
  lemma EvictAtFrame(vm: Vm, v: nat, k: PageKey, ok: Allocs)
    requires v < |vm.frames| && vm.frames[v].key in vm.pd && vm.frames[v].kpage < |vm.ram| && k !in vm.pd
    ensures EvictAt(vm, v, ok).Done? ==> SameEntry(vm, EvictAt(vm, v, ok).vm, k)
  {
  }

  ghost predicate SameEntry(vm: Vm, vm': Vm, k: PageKey) {
    && k !in vm'.pd
    && (k in vm'.sup <==> k in vm.sup) && (k in vm.sup ==> vm'.sup[k] == vm.sup[k])
  }

  /** Getting a kernel page for a page that is not present touches neither its entry nor its absence. */
  lemma GetPageFrame(vm: Vm, k: PageKey, ok: Allocs)
    requires Shape(vm.frames, vm.pd, vm.used, {}) && HandOk(vm.hand, |vm.frames|) && |vm.ram| == |vm.used|
    requires k !in vm.pd
    ensures GetPage(vm, ok).Done? ==> SameEntry(vm, GetPage(vm, ok).vm, k)
  {
    if FirstFree(vm.used) == |vm.used| && |vm.frames| > 0 {
      var vm0, v := ScanFinds(vm, ok);
      EvictAtFrame(vm0, v, k, ok);
      assert ok.structs ==> GetPage(vm, ok) == EvictAt(vm0, v, ok);
    }
  }

  // The three ways of filling the frame.

  lemma GrowKeepsInv(vm: Vm, origin: SupTable, slots: Swap.Slots, mem: Mem, k: PageKey, kp: nat, ok: Allocs)
    requires Inv(vm, origin, slots, mem, {kp}) && kp < |vm.ram| && k !in vm.pd && k !in vm.sup
    ensures Grow(vm, k, kp, ok).Done? && Inv(Grow(vm, k, kp, ok).vm, origin, slots, mem, {})
  {
    hide Inv, Installable;
    if ok.table {
      GrowReady(vm, origin, slots, mem, k, kp);
      InstallKeepsInv(vm, origin, slots, mem, k, kp, vm.ram[kp], Pte(kp, true, false, false));
    } else {
      GiveBackKeepsInv(vm, origin, slots, mem, kp);
    }
  }

  lemma GrowReady(vm: Vm, origin: SupTable, slots: Swap.Slots, mem: Mem, k: PageKey, kp: nat)
    requires Inv(vm, origin, slots, mem, {kp}) && kp < |vm.ram| && k !in vm.pd && k !in vm.sup
    ensures Installable(vm, origin, slots, mem, k, kp, vm.ram[kp], Pte(kp, true, false, false))
  {
    assert k !in origin;
    assert k in mem ==> Stashed(vm.sup, vm.files, slots, mem[k], k);
    PromiseLess(vm, origin, slots, mem, mem - {k}, {kp});
  }

  lemma ReadInKeepsInv(vm: Vm, origin: SupTable, slots: Swap.Slots, mem: Mem, k: PageKey, kp: nat, ok: Allocs)
    requires Inv(vm, origin, slots, mem, {kp}) && kp < |vm.ram| && k !in vm.pd && k in vm.sup && !vm.sup[k].SwapPage?
    ensures ReadIn(vm, k, kp, vm.sup[k], ok) == Done(GiveBack(vm, kp), Killed) ==>
                MayKill(vm.files, origin, mem, k, true, ok)
    ensures ReadIn(vm, k, kp, vm.sup[k], ok).Done? && Inv(ReadIn(vm, k, kp, vm.sup[k], ok).vm, origin, slots, mem, {})
    ensures var r := ReadIn(vm, k, kp, vm.sup[k], ok);
            r.value == Present ==>
              kp < |r.vm.ram| && forall i :: 0 <= i < PGSIZE ==>
                      FirstByte(vm.sup[k], vm.files, i) == Some(r.vm.ram[kp][i])
  {
    var e := vm.sup[k];
    assert EntryOk(e, vm.pd, origin, slots, k);
    if CanRead(e, vm.files, ok.read) && ok.table {
      forall i | 0 <= i < PGSIZE ensures FirstByte(e, vm.files, i) == Some(Backing(e, vm.files)[i]) {
        BackingIsFirst(e, vm.files, i);
      }
      ReadInReady(vm, origin, slots, mem, k, kp);
      InstallKeepsInv(vm, origin, slots, mem, k, kp, Backing(e, vm.files),
          Pte(kp, !e.ExecPage? || e.writable, false, false));
    } else {
      GiveBackKeepsInv(vm, origin, slots, mem, kp);
    }
  }

  lemma ReadInReady(vm: Vm, origin: SupTable, slots: Swap.Slots, mem: Mem, k: PageKey, kp: nat)
    requires Inv(vm, origin, slots, mem, {kp}) && kp < |vm.ram| && k !in vm.pd && k in vm.sup && !vm.sup[k].SwapPage?
    requires Fits(vm.sup[k], vm.files)
    ensures var e := vm.sup[k];
            Installable(vm, origin, slots, mem, k, kp, Backing(e, vm.files),
                Pte(kp, !e.ExecPage? || e.writable, false, false))
  {
    assert EntryOk(vm.sup[k], vm.pd, origin, slots, k);
    assert k in mem ==> Stashed(vm.sup, vm.files, slots, mem[k], k);
    PromiseLess(vm, origin, slots, mem, mem - {k}, {kp});
  }

  /** Freeing the slot and restoring the entry it had replaced keeps the tables exact. */
  lemma SwapInTables(sup: SupTable, pd: PageMap, origin: SupTable, slots: Swap.Slots, k: PageKey)
    requires NoSwap(origin) && Tables(sup, pd, origin, slots) && k in sup && sup[k].SwapPage?
    ensures Tables(Restored(sup, k, sup[k].evicted), pd, origin, slots - {sup[k].slot})
  {
    var e := sup[k];
    var sup', slots' := Restored(sup, k, e.evicted), slots - {e.slot};
    assert EntryOk(e, pd, origin, slots, k);
    forall j | j in sup' ensures EntryOk(sup'[j], pd, origin, slots', j) {
      assert EntryOk(sup[j], pd, origin, slots, j) && (j != k ==> SlotsDiffer(sup[j], sup[k]));
    }
    forall t | t in slots' ensures HasSlot(sup', t) {
      assert HasSlot(sup, t);
      var j :| j in sup && sup[j].SwapPage? && sup[j].slot == t;
      assert sup'[j] == sup[j];
    }
    forall j, j' | j in sup' && j' in sup' && j != j' ensures SlotsDiffer(sup'[j], sup'[j']) {
      assert SlotsDiffer(sup[j], sup[j']);
    }
  }

  lemma SwapInKept(vm: Vm, origin: SupTable, slots: Swap.Slots, mem: Mem, spare: set<nat>, k: PageKey)
    requires Inv(vm, origin, slots, mem, spare)
    requires k in vm.sup && vm.sup[k].SwapPage?
    ensures Kept(vm.pd, vm.ram, Restored(vm.sup, k, vm.sup[k].evicted), vm.files, vm.denied, origin,
            slots - {vm.sup[k].slot}, mem - {k})
  {
    var e := vm.sup[k];
    var mem' := mem - {k};
    assert EntryOk(e, vm.pd, origin, slots, k);
    forall j | j in vm.pd ensures Resident(vm.pd[j], vm.ram, vm.files, origin, mem', j) {
      assert Resident(vm.pd[j], vm.ram, vm.files, origin, mem, j);
    }
    forall j | j in mem' && j !in vm.pd
      ensures Stashed(Restored(vm.sup, k, e.evicted), vm.files, slots - {e.slot}, mem'[j], j)
    {
      assert Stashed(vm.sup, vm.files, slots, mem[j], j) && SlotsDiffer(vm.sup[j], vm.sup[k]);
    }
  }

  lemma SwapInKeepsInv(vm: Vm, origin: SupTable, slots: Swap.Slots, mem: Mem, k: PageKey, kp: nat, ok: Allocs)
    returns (slots': Swap.Slots)
    requires Inv(vm, origin, slots, mem, {kp}) && kp < |vm.ram| && k !in vm.pd && k in vm.sup && vm.sup[k].SwapPage?
    requires ok.structs
    ensures SwapIn(vm, k, kp, vm.sup[k], ok).Done?
    ensures Inv(SwapIn(vm, k, kp, vm.sup[k], ok).vm, origin, slots', if ok.table then mem else mem - {k}, {})
  {
    hide Inv, Installable, Swap.Read;
    SwapInReady(vm, origin, slots, mem, k, kp);
    var e := vm.sup[k];
    slots' := slots - {e.slot};
    var vm' := vm.(swap := Swap.Read(vm.swap, e.slot).0, sup := Restored(vm.sup, k, e.evicted));
    if ok.table {
      InstallKeepsInv(vm', origin, slots', mem, k, kp, slots[e.slot], Pte(kp, true, false, true));
    } else {
      GiveBackKeepsInv(vm', origin, slots', mem - {k}, kp);
    }
  }

  /** With its slot read and freed, the page may be installed, dirty. */
  lemma SwapInReady(vm: Vm, origin: SupTable, slots: Swap.Slots, mem: Mem, k: PageKey, kp: nat)
    requires Inv(vm, origin, slots, mem, {kp}) && kp < |vm.ram| && k !in vm.pd && k in vm.sup && vm.sup[k].SwapPage?
    ensures var e := vm.sup[k];
            && e.slot in slots && e.dirty && e.slot + Swap.SECTORS_PER_FRAME <= |vm.swap.disk|
            && Swap.Read(vm.swap, e.slot).1 == slots[e.slot]
            && var vm' := vm.(swap := Swap.Read(vm.swap, e.slot).0, sup := Restored(vm.sup, k, e.evicted));
               && Inv(vm', origin, slots - {e.slot}, mem - {k}, {kp})
               && Installable(vm', origin, slots - {e.slot}, mem, k, kp, slots[e.slot], Pte(kp, true, false, true))
  {
    hide Swap.Read, Swap.Refines, Shape;
    var e := vm.sup[k];
    assert EntryOk(e, vm.pd, origin, slots, k);
    SlotOnDisk(vm.swap, slots, e.slot);
    Swap.ReadRefines(vm.swap, slots, e.slot);
    SwapInTables(vm.sup, vm.pd, origin, slots, k);
    SwapInKept(vm, origin, slots, mem, {kp}, k);
    assert k in mem ==> Stashed(vm.sup, vm.files, slots, mem[k], k);
    SwapInResident(vm, origin, slots, mem, {kp}, k, kp);
  }

  lemma SlotOnDisk(s: Swap.SwapDisk, slots: Swap.Slots, t: nat)
    requires Swap.Refines(s, slots) && t in slots
    ensures t + Swap.SECTORS_PER_FRAME <= |s.disk|
  {
  }

  /** The page read back from its slot, marked dirty, is what was promised. */
  lemma SwapInResident(vm: Vm, origin: SupTable, slots: Swap.Slots, mem: Mem, spare: set<nat>, k: PageKey, kp: nat)
    requires Inv(vm, origin, slots, mem, spare) && kp < |vm.ram| && k !in vm.pd
    requires k in vm.sup && vm.sup[k].SwapPage?
    ensures vm.sup[k].slot in slots
    ensures Resident(Pte(kp, true, false, true), vm.ram[kp := slots[vm.sup[k].slot]], vm.files, origin, mem, k)
    ensures k in mem && k in origin ==> Intact(vm.files, vm.denied, origin, mem[k], k)
  {
    assert EntryOk(vm.sup[k], vm.pd, origin, slots, k);
    assert k in mem ==> Stashed(vm.sup, vm.files, slots, mem[k], k);
  }

  /**
   The reasons for killing a process at a fault: no page table, a short read, or an address that is no page of its.
   */
  ghost predicate MayKill(files: seq<File>, origin: SupTable, mem: Mem, k: PageKey, stack: bool, ok: Allocs) {
    || !ok.table
    || (k in origin && !CanRead(origin[k], files, ok.read))
    || (k !in origin && k !in mem && !stack)
  }

  /**
   The page is present with every promise kept, or its process is dead for a reason and everybody else's promises are
   kept.
   */
  ghost predicate FaultOk(r: Result<Outcome>, vm: Vm, origin: SupTable, slots: Swap.Slots, mem: Mem, k: PageKey,
      stack: bool, ok: Allocs) {
    && r.Done? && r.vm.denied == vm.denied && SameLengths(vm.files, r.vm.files)
    && match r.value
       case Present => Inv(r.vm, origin, slots, mem, {}) && k in r.vm.pd
       case Killed => Inv(r.vm, origin, slots, Forget(mem, k.pid), {}) && MayKill(vm.files, origin, mem, k, stack, ok)
  }

  lemma FillKeepsInv(vm: Vm, origin: SupTable, slots: Swap.Slots, mem: Mem, k: PageKey, kp: nat, stack: bool,
                     ok: Allocs) returns (slots': Swap.Slots)
    requires Inv(vm, origin, slots, mem, {kp}) && kp < |vm.ram| && k !in vm.pd && ok.structs
    ensures FaultOk(Fill(vm, k, kp, if k in vm.sup then Some(vm.sup[k]) else None, ok), vm, origin, slots', mem, k,
            stack, ok)
  {
    hide Inv, FaultOk, Forget;
    slots' := slots;
    if k !in vm.sup {
      GrowKeepsInv(vm, origin, slots, mem, k, kp, ok);
      FaultSettled(Grow(vm, k, kp, ok), vm, origin, slots, mem, mem, k, stack, ok);
    } else if vm.sup[k].SwapPage? {
      slots' := SwapInKeepsInv(vm, origin, slots, mem, k, kp, ok);
      FaultSettled(SwapIn(vm, k, kp, vm.sup[k], ok), vm, origin, slots', mem, if ok.table then mem
          else mem - {k}, k, stack, ok);
    } else {
      ReadInKeepsInv(vm, origin, slots, mem, k, kp, ok);
      FaultSettled(ReadIn(vm, k, kp, vm.sup[k], ok), vm, origin, slots, mem, mem, k, stack, ok);
    }
  }

  /** A page made present with every promise kept, or a process killed for a reason with all promises but the page's. */
  lemma FaultSettled(r: Result<Outcome>, vm: Vm, origin: SupTable, slots: Swap.Slots, mem: Mem, left: Mem, k: PageKey,
                     stack: bool, ok: Allocs)
    requires r.Done? && r.vm.denied == vm.denied && SameLengths(vm.files, r.vm.files)
    requires Inv(r.vm, origin, slots, left, {})
    requires r.value == Present ==> left == mem && k in r.vm.pd
    requires r.value == Killed ==> (left == mem || left == mem - {k}) && MayKill(vm.files, origin, mem, k, stack, ok)
    ensures FaultOk(r, vm, origin, slots, mem, k, stack, ok)
  {
    hide Inv, MayKill;
    if r.value == Killed {
      PromiseLess(r.vm, origin, slots, left, Forget(mem, k.pid), {});
    }
  }

  /** The pool is exhausted and no frame can be evicted, or there is no memory for a structure. */
  ghost predicate OutOfMemory(vm: Vm, slots: Swap.Slots, ok: Allocs) {
    !ok.structs || (FirstFree(vm.used) == |vm.used| && (|vm.frames| < 2 || SwapFull(vm.swap, slots)))
  }

  /** A page neither present nor in the table is no page of its process. */
  lemma NoPageOf(vm: Vm, origin: SupTable, slots: Swap.Slots, mem: Mem, k: PageKey)
    requires Inv(vm, origin, slots, mem, {}) && k !in vm.pd && k !in vm.sup
    ensures k !in origin && k !in mem
  {
    assert k in mem ==> Stashed(vm.sup, vm.files, slots, mem[k], k);
  }

  /**
   A page fault makes the page present or kills the process, and keeps everybody
   else's promised memory.  The kernel panics only when it is out of memory.
   */
  lemma PageFaultKeepsInv(vm: Vm, origin: SupTable, slots: Swap.Slots, mem: Mem, k: PageKey, stack: bool, ok: Allocs)
    returns (slots': Swap.Slots)
    requires Inv(vm, origin, slots, mem, {}) && k !in vm.pd && AllSpared(mem, origin, k, ok.write)
    ensures var r := PageFault(vm, k, stack, ok);
            if r.Panic? then OutOfMemory(vm, slots, ok) else FaultOk(r, vm, origin, slots', mem, k, stack, ok)
  {
    hide Shape, Tables, Kept, Layout, Forget, Fill, OutOfMemory, GetPage, AllSpared, CanRead;
    if k !in vm.sup && !stack {
      slots' := slots;
      NoPageOf(vm, origin, slots, mem, k);
      FaultSettled(PageFault(vm, k, stack, ok), vm, origin, slots, mem, mem, k, stack, ok);
    } else {
      slots' := GetPageKeepsInv(vm, origin, slots, mem, k, ok);
      GetPageFrame(vm, k, ok);
      if GetPage(vm, ok).Done? {
        var Done(vm1, kp) := GetPage(vm, ok);
        slots' := FillKeepsInv(vm1, origin, slots', mem, k, kp, stack, ok);
        KillSame(vm.files, vm1.files, origin, mem, k, stack, ok);
      }
    }
  }

  /** The reasons do not depend on what has been written to the files. */
  lemma KillSame(files: seq<File>, files': seq<File>, origin: SupTable, mem: Mem, k: PageKey, stack: bool, ok: Allocs)
    requires SameLengths(files, files')
    ensures MayKill(files, origin, mem, k, stack, ok) <==> MayKill(files', origin, mem, k, stack, ok)
  {
    hide Sent;
    assert k in origin ==> (Fits(origin[k], files) <==> Fits(origin[k], files'));
  }

  // ---------------------------------------------------------- access proofs

  /** Distinct resident pages are in distinct kernel pages. */
  lemma PagesDistinct(frames: seq<Frame>, pd: PageMap, used: seq<bool>, k: PageKey, j: PageKey)
    requires Shape(frames, pd, used, {}) && k in pd && j in pd && j != k
    ensures pd[j].kpage != pd[k].kpage
  {
    assert HoldsKey(frames, k) && HoldsKey(frames, j);
    var i :| 0 <= i < |frames| && frames[i].key == k;
    var i' :| 0 <= i' < |frames| && frames[i'].key == j;
    assert FrameOk(pd, used, {}, frames[i]) && FrameOk(pd, used, {}, frames[i']);
    assert if i < i' then frames[i].kpage != frames[i'].kpage else frames[i'].kpage != frames[i].kpage;
  }

  lemma StoreKept(vm: Vm, origin: SupTable, slots: Swap.Slots, mem: Mem, k: PageKey, p': Page, img: Image)
    requires Inv(vm, origin, slots, mem, {}) && k in vm.pd && vm.pd[k].writable && vm.pd[k].kpage < |vm.ram|
    requires Agrees(img, p') && (k in origin ==> Intact(vm.files, vm.denied, origin, img, k))
    ensures Kept(vm.pd[k := vm.pd[k].(accessed := true, dirty := true)], vm.ram[vm.pd[k].kpage := p'],
                 vm.sup, vm.files, vm.denied, origin, slots, mem[k := img])
  {
    var pd', ram' := vm.pd[k := vm.pd[k].(accessed := true, dirty := true)], vm.ram[vm.pd[k].kpage := p'];
    forall j | j in pd' ensures Resident(pd'[j], ram', vm.files, origin, mem[k := img], j) {
      assert Resident(vm.pd[j], vm.ram, vm.files, origin, mem, j);
      if j != k { PagesDistinct(vm.frames, vm.pd, vm.used, k, j); }
    }
  }

  /** A store to a present, writable page keeps every other page's bytes and promises the byte stored. */
  lemma StoreKeepsInv(vm: Vm, origin: SupTable, slots: Swap.Slots, mem: Mem, k: PageKey, i: nat, b: byte)
    requires Inv(vm, origin, slots, mem, {}) && k in vm.pd && vm.pd[k].writable && i < PGSIZE
    ensures vm.pd[k].kpage < |vm.ram|
    ensures var pte := vm.pd[k];
            var kept := if Lossy(origin, vm.denied, k, i) then Unknown else Last(b);
            Inv(vm.(pd := vm.pd[k := pte.(accessed := true, dirty := true)],
                    ram := vm.ram[pte.kpage := Poke(vm.ram[pte.kpage], i, b)]),
                origin, slots, mem[k := PokeImage(ImageOf(mem, k), i, kept)], {})
  {
    hide Shape, Tables, Kept, Layout, HandOk;
    var pte := vm.pd[k];
    PromiseOf(vm, origin, slots, mem, k);
    var p' := Poke(vm.ram[pte.kpage], i, b);
    var img := PokeImage(ImageOf(mem, k), i, if Lossy(origin, vm.denied, k, i) then Unknown else Last(b));
    var pd' := vm.pd[k := pte.(accessed := true, dirty := true)];
    StoreKept(vm, origin, slots, mem, k, p', img);
    UseKeepsShape(vm.frames, vm.pd, vm.used, k, pd'[k]);
    UseKeepsTables(vm.sup, vm.pd, origin, slots, k, pd'[k]);
  }

  /** What is promised of a present page. */
  lemma PromiseOf(vm: Vm, origin: SupTable, slots: Swap.Slots, mem: Mem, k: PageKey)
    requires Inv(vm, origin, slots, mem, {}) && k in vm.pd
    ensures Resident(vm.pd[k], vm.ram, vm.files, origin, mem, k)
    ensures k in mem && k in origin ==> Intact(vm.files, vm.denied, origin, mem[k], k)
  {
  }

  /** The accessed and dirty bits of a page do not matter to the frame table ... */
  lemma UseKeepsShape(frames: seq<Frame>, pd: PageMap, used: seq<bool>, k: PageKey, pte: Pte)
    requires Shape(frames, pd, used, {}) && k in pd && pte.kpage == pd[k].kpage
    ensures Shape(frames, pd[k := pte], used, {})
  {
    forall j | 0 <= j < |frames| ensures FrameOk(pd[k := pte], used, {}, frames[j]) {
      assert FrameOk(pd, used, {}, frames[j]);
    }
  }

  /** ... nor to the supplemental page table. */
  lemma UseKeepsTables(sup: SupTable, pd: PageMap, origin: SupTable, slots: Swap.Slots, k: PageKey, pte: Pte)
    requires Tables(sup, pd, origin, slots) && k in pd
    ensures Tables(sup, pd[k := pte], origin, slots)
  {
    forall j | j in sup ensures EntryOk(sup[j], pd[k := pte], origin, slots, j) {
      assert EntryOk(sup[j], pd, origin, slots, j);
    }
  }

  /**
   A reply is right if a byte read is the promised one, a completed store was to a writable page, and a process dies
   at a store to a read-only page, for want of a page table, at a short read, or at an address that is no page of its.
   */
  ghost predicate ReplyOk(files: seq<File>, mem: Mem, origin: SupTable, a: Access, r: Reply) {
    match r
    case Byte(b) => a.Load? && (ImageOf(mem, a.Key())[a.Ofs()] != Unknown ==> ImageOf(mem, a.Key())[a.Ofs()].b == b)
    case Stored => a.Store? && MayDirty(origin, a.Key())
    case Dead =>
      || (a.Store? && !MayDirty(origin, a.Key()))
      || MayKill(files, origin, mem, a.Key(), IsStackAccess(a.va, a.esp), a.ok)
  }

  lemma ReplySame(files: seq<File>, files': seq<File>, mem: Mem, origin: SupTable, a: Access, r: Reply)
    requires SameLengths(files, files')
    ensures ReplyOk(files, mem, origin, a, r) <==> ReplyOk(files', mem, origin, a, r)
  {
    hide MayKill;
    KillSame(files, files', origin, mem, a.Key(), IsStackAccess(a.va, a.esp), a.ok);
  }

  /** The reply is right, and the promised memory is the one the access and its reply call for. */
  ghost predicate StepOk(r: Result<Reply>, vm: Vm, origin: SupTable, slots: Swap.Slots, mem: Mem, a: Access) {
    && r.Done? && r.vm.denied == vm.denied && SameLengths(vm.files, r.vm.files)
    && ReplyOk(vm.files, mem, origin, a, r.value)
    && Inv(r.vm, origin, slots, Settled(mem, origin, vm.denied, a, r.value), {})
  }

  lemma ResidentOf(vm: Vm, origin: SupTable, slots: Swap.Slots, mem: Mem, spare: set<nat>, k: PageKey)
    requires Inv(vm, origin, slots, mem, spare) && k in vm.pd
    ensures Resident(vm.pd[k], vm.ram, vm.files, origin, mem, k)
  {
  }

  lemma HitIsTransparent(vm: Vm, origin: SupTable, slots: Swap.Slots, mem: Mem, a: Access)
    requires Inv(vm, origin, slots, mem, {}) && a.Key() in vm.pd
    ensures StepOk(Hit(vm, a), vm, origin, slots, mem, a)
  {
    hide Inv;
    var k := a.Key();
    ResidentOf(vm, origin, slots, mem, {}, k);
    if a.Load? {
      AccessedInvisible(vm, origin, slots, mem, {}, vm.pd[k := vm.pd[k].(accessed := true)]);
    } else if vm.pd[k].writable {
      StoreKeepsInv(vm, origin, slots, mem, k, a.Ofs(), a.value);
    } else {
      PromiseLess(vm, origin, slots, mem, Forget(mem, a.pid), {});
    }
  }

  /** One access, whatever faults and evictions it takes, is transparent unless the kernel is out of memory. */
  lemma DoIsTransparent(vm: Vm, origin: SupTable, slots: Swap.Slots, mem: Mem, a: Access) returns (slots': Swap.Slots)
    requires Inv(vm, origin, slots, mem, {})
    ensures if Do(vm, a).Panic? then OutOfMemory(vm, slots, a.ok)
            else StepOk(Do(vm, a), vm, origin, slots', Left(mem, origin, a.Key(), a.ok.write), a)
                 && ReplyOk(vm.files, mem, origin, a, Do(vm, a).value)
  {
    hide Inv, PageFault, Hit, Left, AllSpared, ReplyOk, OutOfMemory, Settled;
    var mem1 := Left(mem, origin, a.Key(), a.ok.write);
    LeftIsWeaker(mem, origin, a.Key(), a.ok.write);
    LeftIsSpared(mem, origin, a.Key(), a.ok.write);
    PromiseLess(vm, origin, slots, mem, mem1, {});
    slots' := TouchedIsTransparent(vm, origin, slots, mem1, a);
    if Do(vm, a).Done? { LeftReplies(vm.files, mem, origin, a, Do(vm, a).value); }
  }

  lemma TouchedIsTransparent(vm: Vm, origin: SupTable, slots: Swap.Slots, mem: Mem, a: Access)
    returns (slots': Swap.Slots)
    requires Inv(vm, origin, slots, mem, {}) && AllSpared(mem, origin, a.Key(), a.ok.write)
    ensures if Do(vm, a).Panic? then OutOfMemory(vm, slots, a.ok) else StepOk(Do(vm, a), vm, origin, slots', mem, a)
  {
    hide Inv, PageFault, Hit, MayKill, OutOfMemory, AllSpared;
    slots' := slots;
    if a.Key() !in vm.pd {
      slots' := PageFaultKeepsInv(vm, origin, slots, mem, a.Key(), IsStackAccess(a.va, a.esp), a.ok);
    }
    var t := Touch(vm, a);
    if t.Done? && t.value == Present {
      HitIsTransparent(t.vm, origin, slots', mem, a);
      ReplySame(vm.files, t.vm.files, mem, origin, a, Hit(t.vm, a).value);
    }
  }

  /** What is lost of other pages does not matter to the reply. */
  lemma LeftReplies(files: seq<File>, mem: Mem, origin: SupTable, a: Access, r: Reply)
    ensures ReplyOk(files, Left(mem, origin, a.Key(), a.ok.write), origin, a, r) <==> ReplyOk(files, mem, origin, a, r)
  {
    hide CutPage, CanRead;
  }

  // -------------------------------------------------------------- whole runs

  /** The state after `ft_init` and `swap_init`, with the given pages registered as lazily loaded. */
  function Boot(origin: SupTable, files: seq<File>, denied: set<nat>, ram: seq<Page>, disk: seq<Sector>): (vm: Vm) {
    Vm([], Head, map[], origin, seq(|ram|, _ => false), ram, files, denied, Swap.Init(disk))
  }

  /** What a page holds before any access. */
  function InitialImage(e: SupPage, files: seq<File>): (img: Image) {
    if Fits(e, files) then Known(Backing(e, files)) else seq(PGSIZE, _ => Unknown)
  }

  function Known(p: Page): (img: Image)
    ensures forall i :: 0 <= i < PGSIZE ==> img[i] == First(p[i])
  {
    var s: seq<Promise> := seq(|p|, i requires 0 <= i < |p| => First(p[i]));
    s
  }

  function InitialMem(origin: SupTable, files: seq<File>): (mem: Mem) {
    map k | k in origin :: InitialImage(origin[k], files)
  }

  lemma BootIsInv(origin: SupTable, files: seq<File>, denied: set<nat>, ram: seq<Page>, disk: seq<Sector>)
    requires Layout(origin, denied)
    ensures Inv(Boot(origin, files, denied, ram, disk), origin, map[], InitialMem(origin, files), {})
  {
    var vm := Boot(origin, files, denied, ram, disk);
    var slots: Swap.Slots := map[];
    assert slots.Keys == {} && Swap.Refines(vm.swap, slots);
    assert forall k :: k in origin ==> EntryOk(vm.sup[k], vm.pd, origin, slots, k);
    forall k | k in origin && Fits(origin[k], files)
      ensures Agrees(InitialImage(origin[k], files), Backing(origin[k], files))
    {
    }
  }

  /** A run of accesses by any processes, and the replies they got. */
  function Run(vm: Vm, accesses: seq<Access>): (r: Result<seq<Reply>>)
    ensures r.Done? ==> |r.value| == |accesses|
    decreases |accesses|
  {
    if accesses == [] then Done(vm, [])
    else
      var n := |accesses| - 1;
      match Run(vm, accesses[..n])
      case Panic => Panic
      case Done(vm1, replies) =>
        match Do(vm1, accesses[n])
        case Panic => Panic
        case Done(vm2, r) => Done(vm2, replies + [r])
  }

  /** The memory promised after a run. */
  function ObserveAll(mem: Mem, origin: SupTable, denied: set<nat>, accesses: seq<Access>,
                      replies: seq<Reply>): (m: Mem)
    requires |accesses| == |replies|
    decreases |accesses|
  {
    if accesses == [] then mem
    else
      var n := |accesses| - 1;
      Observe(ObserveAll(mem, origin, denied, accesses[..n], replies[..n]), origin, denied, accesses[n], replies[n])
  }

  /** The invariant, with some assignment of pages to swap slots. */
  ghost predicate Good(vm: Vm, origin: SupTable, mem: Mem) {
    exists slots :: Inv(vm, origin, slots, mem, {})
  }

  /**
   Over every run, each reply is right for the memory promised by the accesses before it, and deaths have their reasons.
   */
  lemma {:induction false} RunIsTransparent(vm: Vm, origin: SupTable, mem: Mem, accesses: seq<Access>)
    requires Good(vm, origin, mem) && Run(vm, accesses).Done?
    ensures var Done(vm', replies) := Run(vm, accesses);
            && vm'.denied == vm.denied && SameLengths(vm.files, vm'.files)
            && Good(vm', origin, ObserveAll(mem, origin, vm.denied, accesses, replies))
            && forall i :: 0 <= i < |accesses| ==>
                 ReplyOk(vm.files, ObserveAll(mem, origin, vm.denied, accesses[..i], replies[..i]), origin, accesses[i],
                     replies[i])
    decreases |accesses|
  {
    hide Inv, Do, Settled, Left, ReplyOk;
    if accesses != [] {
      var n := |accesses| - 1;
      RunIsTransparent(vm, origin, mem, accesses[..n]);
      var Done(vm1, replies1) := Run(vm, accesses[..n]);
      var mem1 := ObserveAll(mem, origin, vm.denied, accesses[..n], replies1);
      var slots :| Inv(vm1, origin, slots, mem1, {});
      var slots' := DoIsTransparent(vm1, origin, slots, mem1, accesses[n]);
      var replies := Run(vm, accesses).value;
      assert replies[..n] == replies1;
      ReplySame(vm.files, vm1.files, mem1, origin, accesses[n], replies[n]);
      forall i | 0 <= i < |accesses|
        ensures ReplyOk(vm.files, ObserveAll(mem, origin, vm.denied, accesses[..i], replies[..i]), origin, accesses[i],
                replies[i])
      {
        if i < n {
          assert accesses[..n][..i] == accesses[..i] && replies1[..i] == replies[..i];
          assert replies1[i] == replies[i] && accesses[..n][i] == accesses[i];
        }
      }
    }
  }

  /** Which of the accesses is the last store at an address by a process, if any. */
  function LastStore(accesses: seq<Access>, pid: nat, va: nat): (m: Option<nat>)
    ensures m.Some? ==> m.value < |accesses| && accesses[m.value].Store?
    decreases |accesses|
  {
    if accesses == [] then None
    else
      var n := |accesses| - 1;
      var a := accesses[n];
      if a.Store? && a.pid == pid && a.va == va then Some(n) else LastStore(accesses[..n], pid, va)
  }

  /** A byte of a mapped page in the last part of a sector, which is written back through the bounce buffer. */
  predicate ViaBounce(origin: SupTable, k: PageKey, i: nat) {
    k in origin && origin[k].FilePage? && Sent(origin[k], false) <= i
  }

  /** Since access `m`, no access to another page than `k` lacked the memory to write an evicted page back. */
  ghost predicate Buffered(accesses: seq<Access>, m: nat, k: PageKey) {
    forall j :: m < j < |accesses| && accesses[j].Key() != k ==> accesses[j].ok.write
  }

  /**
   While a process lives, what is promised at an address is its last store there if it is kept, or the initial byte.
   */
  lemma {:induction false} PromisedIsLastStore(mem: Mem, origin: SupTable, denied: set<nat>, accesses: seq<Access>,
                                               replies: seq<Reply>, pid: nat, va: nat)
    requires |accesses| == |replies| && !ImageOf(mem, PageKey(pid, va / PGSIZE))[va % PGSIZE].Last?
    requires forall j :: 0 <= j < |accesses| && accesses[j].pid == pid ==> replies[j] != Dead
    ensures var k, i := PageKey(pid, va / PGSIZE), va % PGSIZE;
            var img := ImageOf(ObserveAll(mem, origin, denied, accesses, replies), k);
            match LastStore(accesses, pid, va)
            case Some(m) =>
              img[i] == if Lossy(origin, denied, k, i)
                  || (ViaBounce(origin, k, i) && !Buffered(accesses, m, k)) then Unknown
                        else Last(accesses[m].value)
            case None => img[i] == ImageOf(mem, k)[i]
    decreases |accesses|
  {
    hide Sent, Lossy, ViaBounce, Observe;
    if accesses != [] {
      var n := |accesses| - 1;
      var a, before := accesses[n], accesses[..n];
      PromisedIsLastStore(mem, origin, denied, before, replies[..n], pid, va);
      var k, i := PageKey(pid, va / PGSIZE), va % PGSIZE;
      assert a.Key() == k && a.Ofs() == i <==> a.pid == pid && a.va == va;
      ObservedByte(ObserveAll(mem, origin, denied, before, replies[..n]), origin, denied, a, replies[n], k, i);
      var m := LastStore(before, pid, va);
      if m.Some? { BufferedMore(before, a, m.value, k); }
      assert before + [a] == accesses;
    }
  }

  lemma BufferedMore(before: seq<Access>, a: Access, m: nat, k: PageKey)
    requires m < |before|
    ensures Buffered(before + [a], m, k) <==> Buffered(before, m, k) && (a.Key() != k ==> a.ok.write)
  {
    var all := before + [a];
    assert all[|before|] == a && forall j :: 0 <= j < |before| ==> all[j] == before[j];
  }

  /** What one access leaves of the promise of a byte. */
  lemma ObservedByte(mem: Mem, origin: SupTable, denied: set<nat>, a: Access, r: Reply, k: PageKey, i: nat)
    requires i < PGSIZE && (r == Dead ==> a.pid != k.pid)
    ensures var was, now := ImageOf(mem, k)[i], ImageOf(Observe(mem, origin, denied, a, r), k)[i];
            now == if r != Dead && a.Store? && a.Key() == k && a.Ofs() == i
                   then (if Lossy(origin, denied, k, i) then Unknown else Last(a.value))
                   else if was.Last? && ViaBounce(origin, k, i) && a.Key() != k && !a.ok.write then Unknown
                   else was
  {
    hide Sent, Lossy;
  }

  /**
   Paging is transparent.  From boot, over every run of accesses by any number of
   processes, a byte read is the one its process last stored at that address, or else
   the page's initial content (file bytes up to zero_after, then zeros).  The only
   exceptions are stores to bytes of mapped pages that are not written back, or that go
   through a bounce buffer for which there was no memory at some access since.
   */
  lemma ReadsSeeLastStore(origin: SupTable, files: seq<File>, denied: set<nat>, ram: seq<Page>, disk: seq<Sector>,
                          accesses: seq<Access>, n: nat)
    requires Layout(origin, denied)
    requires Run(Boot(origin, files, denied, ram, disk), accesses).Done? && n < |accesses|
    requires var replies := Run(Boot(origin, files, denied, ram, disk), accesses).value;
             replies[n].Byte? && forall j :: 0 <= j < n && accesses[j].pid == accesses[n].pid ==> replies[j] != Dead
    ensures var b := Run(Boot(origin, files, denied, ram, disk), accesses).value[n].b;
            var k, i := accesses[n].Key(), accesses[n].Ofs();
            match LastStore(accesses[..n], accesses[n].pid, accesses[n].va)
            case Some(m) =>
              !Lossy(origin, denied, k, i) && (ViaBounce(origin, k, i) ==> Buffered(accesses[..n], m, k)) ==>
                      b == accesses[m].value
            case None =>
              k in origin && FirstByte(origin[k], files, i).Some? ==> b == FirstByte(origin[k], files, i).value
  {
    hide Inv, Run, ObserveAll, ViaBounce, Lossy, Buffered, MayKill;
    var vm, mem := Boot(origin, files, denied, ram, disk), InitialMem(origin, files);
    BootIsInv(origin, files, denied, ram, disk);
    RunIsTransparent(vm, origin, mem, accesses);
    var replies := Run(vm, accesses).value;
    PromisedIsLastStore(mem, origin, denied, accesses[..n], replies[..n], accesses[n].pid, accesses[n].va);
    if accesses[n].Key() in origin { BackingIsFirst(origin[accesses[n].Key()], files, accesses[n].Ofs()); }
  }

  /** Over every run, a store completes only on a page that is not part of a read-only segment. */
  lemma ReadOnlyStaysReadOnly(origin: SupTable, files: seq<File>, denied: set<nat>, ram: seq<Page>, disk: seq<Sector>,
                              accesses: seq<Access>, n: nat)
    requires Layout(origin, denied)
    requires Run(Boot(origin, files, denied, ram, disk), accesses).Done? && n < |accesses|
    requires Run(Boot(origin, files, denied, ram, disk), accesses).value[n] == Stored
    ensures var k := accesses[n].Key(); !(k in origin && origin[k].ExecPage? && !origin[k].writable)
  {
    hide Inv, Run, ObserveAll;
    BootIsInv(origin, files, denied, ram, disk);
    RunIsTransparent(Boot(origin, files, denied, ram, disk), origin, InitialMem(origin, files), accesses);
  }
}
