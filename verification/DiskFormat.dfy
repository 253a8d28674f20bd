/**
 What the file system keeps in sectors: on-disk inodes (filesys/inode.c) and directory entries (filesys/directory.c).
 */
module DiskFormat {
  import opened Base
  import opened Disk

  const NAME_MAX: nat := 14
  const ENTRY_SIZE: nat := 20
  const INODE_MAGIC: nat := 0x494e4f44

  // ----------------------------------------------------------- 32-bit integers

  /** The four bytes of a 32-bit integer, least significant first. */
  function Le32(n: nat): (b: seq<byte>)
    ensures |b| == 4
  {
    [(n % 256) as byte, (n / 256 % 256) as byte, (n / 65536 % 256) as byte, (n / 16777216 % 256) as byte]
  }

  function FromLe32(b: seq<byte>): (n: nat)
    requires |b| == 4
    ensures n < 0x1_0000_0000
  {
    b[0] as nat + 256 * b[1] as nat + 65536 * b[2] as nat + 16777216 * b[3] as nat
  }

  lemma Le32RoundTrip(n: nat)
    requires n < 0x1_0000_0000
    ensures FromLe32(Le32(n)) == n
  {
    var m := n / 256;
    var h := m / 256;
    var t := h / 256;
    assert n / 65536 == h && n / 16777216 == t && t < 256;
    assert n == 256 * m + n % 256 && m == 256 * h + m % 256 && h == 256 * t + h % 256;
  }

  // -------------------------------------------------------------------- inodes

  /** `struct inode_disk`. */
  function NodeSector(node: Node): (s: Sector) {
    Le32(node.start) + Le32(node.length) + Le32(INODE_MAGIC) + Zeros(500)
  }

  function NodeOf(s: Sector): (node: Node) {
    Node(FromLe32(s[0..4]), FromLe32(s[4..8]))
  }

  lemma NodeRoundTrip(node: Node)
    requires node.start < 0x1_0000_0000 && node.length < 0x1_0000_0000
    ensures NodeOf(NodeSector(node)) == node
  {
    var s := NodeSector(node);
    assert s[0..4] == Le32(node.start) && s[4..8] == Le32(node.length);
    Le32RoundTrip(node.start);
    Le32RoundTrip(node.length);
  }

  // --------------------------------------------------------- directory entries

  type Name = seq<byte>

  datatype Entry = Entry(sector: nat, name: Name, inUse: bool)

  /** A null-terminated string: the bytes before the first null. */
  function CString(b: seq<byte>): (s: Name)
    ensures |s| <= |b| && 0 !in s && s == b[..|s|] && (|s| < |b| ==> b[|s|] == 0)
  {
    if b == [] || b[0] == 0 then [] else [b[0]] + CString(b[1..])
  }

  lemma {:induction false} CStringIs(b: seq<byte>, s: Name)
    requires |s| < |b| && 0 !in s && b[..|s|] == s && b[|s|] == 0
    ensures CString(b) == s
  {
    if s != [] {
      assert b[0] == s[0] && s[0] in s;
      assert b[1..][..|s| - 1] == b[..|s|][1..] == s[1..];
      CStringIs(b[1..], s[1..]);
    }
  }

  /** `struct dir_entry`: the inode's sector, 15 bytes of name, the in-use flag. */
  function EntryOf(b: seq<byte>): (e: Entry)
    requires |b| == ENTRY_SIZE
  {
    Entry(FromLe32(b[0..4]), CString(b[4..19]), b[19] != 0)
  }

  /** What `dir_add` writes over the bytes `b` of a free entry; the name is copied with its null only. */
  function AddedEntry(b: seq<byte>, name: Name, sector: nat): (r: seq<byte>)
    requires |b| == ENTRY_SIZE && |name| <= NAME_MAX
    ensures |r| == ENTRY_SIZE
  {
    Le32(sector) + name + [0] + b[5 + |name|..19] + [1]
  }

  /** What `dir_remove` writes over the bytes of an entry. */
  function ErasedEntry(b: seq<byte>): (r: seq<byte>)
    requires |b| == ENTRY_SIZE
    ensures |r| == ENTRY_SIZE
  {
    b[..19] + [0]
  }

  lemma AddedEntryReads(b: seq<byte>, name: Name, sector: nat)
    requires |b| == ENTRY_SIZE && |name| <= NAME_MAX && 0 !in name && sector < 0x1_0000_0000
    ensures EntryOf(AddedEntry(b, name, sector)) == Entry(sector, name, true)
  {
    var r := AddedEntry(b, name, sector);
    assert r[0..4] == Le32(sector);
    Le32RoundTrip(sector);
    assert r[4..19][..|name|] == name && r[4..19][|name|] == 0;
    CStringIs(r[4..19], name);
  }

  lemma ErasedEntryReads(b: seq<byte>)
    requires |b| == ENTRY_SIZE
    ensures EntryOf(ErasedEntry(b)) == EntryOf(b).(inUse := false)
  {
    var r := ErasedEntry(b);
    assert r[0..4] == b[0..4] && r[4..19] == b[4..19];
  }
}
