/**
 A disk as a sequence of 512-byte sectors, and as the flat sequence of its bytes; the
 chunk-by-chunk transfers of `inode_read_at` and `inode_write_at` (filesys/inode.c).
 */
module Disk {
  import opened Base

  type Image = seq<Sector>

  /** The byte at absolute position `p`. */
  function At(d: Image, p: nat): byte
    requires p < |d| * SECTOR_SIZE
  {
    d[p / SECTOR_SIZE][p % SECTOR_SIZE]
  }

  function Slice(d: Image, p: nat, n: nat): (s: seq<byte>)
    requires p + n <= |d| * SECTOR_SIZE
    ensures |s| == n && forall i :: 0 <= i < n ==> s[i] == At(d, p + i)
  {
    seq(n, i requires 0 <= i < n => At(d, p + i))
  }

  /** Two images agree if all their bytes do. */
  lemma SameImage(d: Image, e: Image)
    requires |d| == |e| && forall p: nat :: p < |d| * SECTOR_SIZE ==> At(d, p) == At(e, p)
    ensures d == e
  {
    forall s | 0 <= s < |d| ensures d[s] == e[s] {
      forall o | 0 <= o < SECTOR_SIZE ensures d[s][o] == e[s][o] {
        assert At(d, s * SECTOR_SIZE + o) == At(e, s * SECTOR_SIZE + o);
      }
    }
  }

  // ------------------------------------------------------------------ patches

  function PatchSector(was: Sector, s: nat, p: nat, b: seq<byte>): Sector {
    seq(SECTOR_SIZE, o requires 0 <= o < SECTOR_SIZE =>
      if p <= s * SECTOR_SIZE + o < p + |b| then b[s * SECTOR_SIZE + o - p] else was[o])
  }

  /** The disk with the bytes `b` written at absolute position `p`. */
  function Patch(d: Image, p: nat, b: seq<byte>): (r: Image)
    ensures |r| == |d|
  {
    seq(|d|, s requires 0 <= s < |d| => PatchSector(d[s], s, p, b))
  }

  lemma PatchAt(d: Image, p: nat, b: seq<byte>, q: nat)
    requires q < |d| * SECTOR_SIZE
    ensures At(Patch(d, p, b), q) == if p <= q < p + |b| then b[q - p] else At(d, q)
  {
    assert q / SECTOR_SIZE * SECTOR_SIZE + q % SECTOR_SIZE == q;
  }

  /** Sectors the patch does not reach are untouched. */
  lemma PatchElsewhere(d: Image, p: nat, b: seq<byte>, s: nat)
    requires s < |d| && ((s + 1) * SECTOR_SIZE <= p || p + |b| <= s * SECTOR_SIZE)
    ensures Patch(d, p, b)[s] == d[s]
  {
  }

  lemma PatchNothing(d: Image, p: nat)
    ensures Patch(d, p, []) == d
  {
    forall s | 0 <= s < |d| ensures Patch(d, p, [])[s] == d[s] { }
  }

  /** Patches that follow each other are one patch. */
  lemma PatchTwice(d: Image, p: nat, b: seq<byte>, c: seq<byte>)
    ensures Patch(Patch(d, p, b), p + |b|, c) == Patch(d, p, b + c)
  {
    var l, r := Patch(Patch(d, p, b), p + |b|, c), Patch(d, p, b + c);
    forall q: nat | q < |d| * SECTOR_SIZE ensures At(l, q) == At(r, q) {
      PatchAt(Patch(d, p, b), p + |b|, c, q);
      PatchAt(d, p, b, q);
      PatchAt(d, p, b + c, q);
    }
    SameImage(l, r);
  }

  /** Writing back one sector with bytes `b` copied over it at offset `o` is a patch. */
  lemma SectorIsPatch(d: Image, s: nat, o: nat, b: seq<byte>, x: Sector)
    requires s < |d| && o + |b| <= SECTOR_SIZE && x == d[s][..o] + b + d[s][o + |b|..]
    ensures d[s := x] == Patch(d, s * SECTOR_SIZE + o, b)
  {
    var r := Patch(d, s * SECTOR_SIZE + o, b);
    forall t | 0 <= t < |d| ensures d[s := x][t] == r[t] { }
  }

  /** Bytes read back after a write. */
  lemma SliceOfPatch(d: Image, p: nat, b: seq<byte>)
    requires p + |b| <= |d| * SECTOR_SIZE
    ensures Slice(Patch(d, p, b), p, |b|) == b
  {
    forall i | 0 <= i < |b| ensures Slice(Patch(d, p, b), p, |b|)[i] == b[i] {
      PatchAt(d, p, b, p + i);
    }
  }

  lemma SliceSplit(d: Image, p: nat, m: nat, n: nat)
    requires p + m + n <= |d| * SECTOR_SIZE
    ensures Slice(d, p, m + n) == Slice(d, p, m) + Slice(d, p + m, n)
  {
  }

  /** Part of one sector, as bytes of the disk. */
  lemma SectorSlice(d: Image, s: nat, o: nat, n: nat)
    requires s < |d| && o + n <= SECTOR_SIZE
    ensures s * SECTOR_SIZE + o + n <= |d| * SECTOR_SIZE && d[s][o..o + n] == Slice(d, s * SECTOR_SIZE + o, n)
  {
  }

  // ------------------------------------------------------- reading and writing

  /** `struct inode_disk`: the first data sector and the length in bytes. */
  datatype Node = Node(start: nat, length: nat)

  /** `bytes_to_sectors`. */
  function Sectors(length: nat): nat { (length + SECTOR_SIZE - 1) / SECTOR_SIZE }

  /** The node's data lies on the disk. */
  predicate OnDisk(d: Image, node: Node) { node.start + Sectors(node.length) <= |d| }

  /** How many of `size` bytes from `offset` on lie within the file. */
  function Count(node: Node, size: int, offset: nat): (n: nat)
    ensures n > 0 <==> size > 0 && offset < node.length
    ensures n > 0 ==> n <= size && offset + n <= node.length && (n == size || offset + n == node.length)
  {
    if size <= 0 || node.length <= offset then 0 else if size <= node.length - offset then size
        else node.length - offset
  }

  /** How many bytes the two loops transfer: without a bounce buffer they stop at the first part of a sector. */
  function Transfer(node: Node, size: int, offset: nat, bounce: bool): (n: nat)
    ensures n <= Count(node, size, offset) && (bounce ==> n == Count(node, size, offset))
  {
    var n := Count(node, size, offset);
    if bounce then n else if offset % SECTOR_SIZE != 0 then 0 else n - n % SECTOR_SIZE
  }

  /** How far the loops have come without a bounce buffer: whole sectors, from the start of one. */
  predicate Whole(done: nat, offset: nat, bounce: bool) {
    bounce || (done % SECTOR_SIZE == 0 && (done > 0 ==> offset % SECTOR_SIZE == 0))
  }

  lemma WholeMore(done: nat, offset: nat, bounce: bool, chunk: nat)
    ensures Whole(0, offset, bounce)
    ensures Whole(done, offset, bounce) && (bounce || ((offset + done) % SECTOR_SIZE == 0 && chunk == SECTOR_SIZE)) ==>
                Whole(done + chunk, offset, bounce)
  {
  }

  /** The bytes read are the bytes of the file. */
  lemma SliceIsContents(d: Image, node: Node, offset: nat, n: nat)
    requires OnDisk(d, node) && offset + n <= node.length
    ensures node.start * SECTOR_SIZE + offset + n <= |d| * SECTOR_SIZE
    ensures Slice(d, node.start * SECTOR_SIZE + offset, n) == Contents(d, node)[offset..offset + n]
  {
  }

  /** The loops stop where `Transfer` says. */
  lemma TransferStops(node: Node, size: int, offset: nat, bounce: bool, done: nat)
    requires Whole(done, offset, bounce) && done <= Count(node, size, offset)
    requires done == Count(node, size, offset) ||
             (!bounce && (var chunk := Chunk(node, size - done, offset + done);
             !((offset + done) % SECTOR_SIZE == 0 && chunk == SECTOR_SIZE)))
    ensures done == Transfer(node, size, offset, bounce)
  {
  }

  /** The contents of a file. */
  function Contents(d: Image, node: Node): (s: seq<byte>)
    requires OnDisk(d, node)
    ensures |s| == node.length
  {
    Slice(d, node.start * SECTOR_SIZE, node.length)
  }

  /** How much the two loops transfer in one turn. */
  function Chunk(node: Node, size: int, offset: nat): (n: int)
    ensures size > 0 && offset < node.length ==>
                0 < n <= Count(node, size, offset) && offset % SECTOR_SIZE + n <= SECTOR_SIZE
    ensures size > 0 && node.length <= offset ==> n <= 0
  {
    var inodeLeft := node.length - offset;
    var sectorLeft := SECTOR_SIZE - offset % SECTOR_SIZE;
    var minLeft := if inodeLeft < sectorLeft then inodeLeft else sectorLeft;
    if size < minLeft then size else minLeft
  }

  /** `byte_to_sector` stays within the file's sectors. */
  lemma ByteToSector(d: Image, node: Node, offset: nat)
    requires OnDisk(d, node) && offset < node.length
    ensures node.start <= node.start + offset / SECTOR_SIZE < node.start + Sectors(node.length)
    ensures (node.start + offset / SECTOR_SIZE) * SECTOR_SIZE + offset % SECTOR_SIZE
            == node.start * SECTOR_SIZE + offset
  {
  }

  /** The chunk at the current offset continues the bytes read so far. */
  lemma ChunkExtends(d: Image, node: Node, offset: nat, done: nat, chunk: nat)
    requires OnDisk(d, node) && 0 < chunk && offset + done + chunk <= node.length
    requires (offset + done) % SECTOR_SIZE + chunk <= SECTOR_SIZE
    ensures node.start + (offset + done) / SECTOR_SIZE < |d|
    ensures node.start * SECTOR_SIZE + offset + done + chunk <= |d| * SECTOR_SIZE
    ensures var ofs := (offset + done) % SECTOR_SIZE;
            Slice(d, node.start * SECTOR_SIZE + offset, done + chunk)
            == Slice(d, node.start * SECTOR_SIZE + offset, done)
                + d[node.start + (offset + done) / SECTOR_SIZE][ofs..ofs + chunk]
  {
    hide Slice;
    ByteToSector(d, node, offset + done);
    SectorSlice(d, node.start + (offset + done) / SECTOR_SIZE, (offset + done) % SECTOR_SIZE, chunk);
    SliceSplit(d, node.start * SECTOR_SIZE + offset, done, chunk);
  }

  /** Where the loop stops, what it has read is what the caller was promised. */
  lemma ReadDone(d: Image, node: Node, size: int, offset: nat, bounce: bool, buffer: seq<byte>)
    requires OnDisk(d, node) && Whole(|buffer|, offset, bounce) && |buffer| <= Count(node, size, offset)
    requires |buffer| == Count(node, size, offset) ||
             (!bounce && !((offset + |buffer|) % SECTOR_SIZE == 0
                 && Chunk(node, size - |buffer|, offset + |buffer|) == SECTOR_SIZE))
    requires offset < node.length ==> buffer == Slice(d, node.start * SECTOR_SIZE + offset, |buffer|)
    ensures |buffer| == Transfer(node, size, offset, bounce)
    ensures buffer != [] ==> offset + |buffer| <= node.length && buffer == Contents(d, node)[offset..offset + |buffer|]
  {
    hide Slice, Contents, Whole, Transfer, Chunk;
    TransferStops(node, size, offset, bounce, |buffer|);
    if buffer != [] { SliceIsContents(d, node, offset, |buffer|); }
  }

  /**
   `inode_read_at`.  Whole sectors go straight into the caller's buffer, parts of a sector through
   the bounce buffer; `bounce` says whether memory for that buffer is available.
   */
  method InodeReadAt(d: Image, node: Node, size0: int, offset0: nat, bounce: bool) returns (buffer: seq<byte>)
    requires OnDisk(d, node)
    ensures |buffer| == Transfer(node, size0, offset0, bounce)
    ensures buffer != [] ==>
                offset0 + |buffer| <= node.length && buffer == Contents(d, node)[offset0..offset0 + |buffer|]
  {
    hide Whole, Transfer, Slice, Chunk, Contents;
    buffer := [];
    var size, offset := size0, offset0;
    WholeMore(0, offset0, bounce, 0);
    EmptySlice(d, node.start * SECTOR_SIZE + offset0);
    while size > 0
      invariant size == size0 - |buffer| && offset == offset0 + |buffer| && |buffer| <= Count(node, size0, offset0)
      invariant buffer != [] ==> offset <= node.length
      invariant Whole(|buffer|, offset0, bounce)
      invariant offset0 < node.length ==> buffer == Slice(d, node.start * SECTOR_SIZE + offset0, |buffer|)
    {
      var chunk := Chunk(node, size, offset);
      if chunk <= 0 {
        ReadDone(d, node, size0, offset0, bounce, buffer);
        return;
      }
      ChunkExtends(d, node, offset0, |buffer|, chunk);
      WholeMore(|buffer|, offset0, bounce, chunk);
      var sector, ofs := node.start + offset / SECTOR_SIZE, offset % SECTOR_SIZE;
      if ofs == 0 && chunk == SECTOR_SIZE {
        assert d[sector] == d[sector][ofs..ofs + chunk];
        buffer := buffer + d[sector];
      } else {
        if !bounce {
          ReadDone(d, node, size0, offset0, bounce, buffer);
          return;
        }
        buffer := buffer + d[sector][ofs..ofs + chunk];
      }
      size, offset := size - chunk, offset + chunk;
    }
    ReadDone(d, node, size0, offset0, bounce, buffer);
  }

  lemma EmptySlice(d: Image, p: nat)
    ensures p <= |d| * SECTOR_SIZE ==> Slice(d, p, 0) == []
  {
  }
}
