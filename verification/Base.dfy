/** Constants and small value types shared by the models of the kernel's modules. */
module Base {

  const PGSIZE: nat := 4096
  const SECTOR_SIZE: nat := 512
  const PHYS_BASE: nat := 0xC000_0000

  datatype Option<+T> = None | Some(value: T)

  newtype byte = x: int | 0 <= x < 256

  /** The contents of one page frame. */
  type Page = s: seq<byte> | |s| == PGSIZE witness seq(PGSIZE, _ => 0)

  /** The contents of one disk sector. */
  type Sector = s: seq<byte> | |s| == SECTOR_SIZE witness seq(SECTOR_SIZE, _ => 0)

  /** No element occurs twice. */
  ghost predicate Distinct<T>(s: seq<T>) {
    forall i, j :: 0 <= i < j < |s| ==> s[i] != s[j]
  }

  function Zeros(n: nat): (s: seq<byte>)
    ensures |s| == n && forall i :: 0 <= i < n ==> s[i] == 0
  {
    seq(n, _ => 0)
  }
}
