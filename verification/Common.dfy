/** Error numbers and the block layout shared by the file system modules
    (fs/testfs.h, fs/inode.h). */
module Common {
  const ENOENT := 2
  const EEXIST := 17
  const ENOTDIR := 20
  const EISDIR := 21
  const EINVAL := 22
  const EFBIG := 27
  const ENOSPC := 28
  const ENOTEMPTY := 39

  const INT_MAX := 0x7fff_ffff

  const BLOCK_SIZE := 8192

  type byte = bv8

  /** A disk block, and any buffer of that size. */
  type Block = b: seq<byte> | |b| == BLOCK_SIZE witness seq(BLOCK_SIZE, _ => 0)

  /** What bzero leaves in a block. */
  function ZeroBlock(): (b: Block)
    ensures forall i | 0 <= i < BLOCK_SIZE :: b[i] == 0
  {
    seq(BLOCK_SIZE, _ => 0)
  }

  function DivRoundUp(a: int, b: int): int
    requires b > 0
  {
    (a + b - 1) / b
  }

  function Max(a: int, b: int): int {
    if a >= b then a else b
  }
}
