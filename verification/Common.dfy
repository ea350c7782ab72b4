/** Sizes from kernel/param.h, kernel/fs.h and kernel/riscv.h, and helpers that several models share. */
module Common {

  newtype Byte = b: int | 0 <= b < 256

  const BSIZE: nat := 0x1_0000
  /** Bitmap bits in a block: BSIZE * 8. */
  const BPB: nat := 0x8_0000
  /** Inodes in a block: BSIZE / 64. */
  const IPB: nat := 1024
  const ROOTINO: nat := 1
  /** The characters of a name that a directory entry keeps. */
  const DIRSIZ: nat := 30
  const DOT: string := "."
  const DOTDOT: string := ".."
  const MAXOPBLOCKS: nat := 10
  const LOGSIZE: nat := 30
  const PGSIZE: nat := 4096
  /** The range of a 32-bit unsigned integer. */
  const UINT_RANGE: nat := 0x1_0000_0000
  /** The holder of a lock that is free. */
  const NOBODY: int := -1

  function Least(a: nat, b: nat): (m: nat) { if a < b then a else b }

  /** A sequence without its element at position k. */
  function Without<T>(s: seq<T>, k: nat): (r: seq<T>)
    requires k < |s|
    ensures |r| == |s| - 1
    ensures forall i {:trigger r[i]} :: 0 <= i < |r| ==> r[i] == if i < k then s[i] else s[i + 1]
  {
    s[..k] + s[k + 1..]
  }

  /** A page or block with the elements of s copied in at a given place. */
  function Spliced<T>(page: seq<T>, at: nat, s: seq<T>): (r: seq<T>)
    requires at + |s| <= |page|
    ensures |r| == |page|
    ensures forall k {:trigger r[k]} :: 0 <= k < |r| ==> r[k] == if at <= k < at + |s| then s[k - at] else page[k]
  {
    page[..at] + s + page[at + |s|..]
  }
}
