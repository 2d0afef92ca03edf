/** The disk layout: the constants and macros of inode_manager.h. */
module Layout {
  const BLOCK_SIZE: nat := 512
  const BLOCK_NUM: nat := 32768
  const INODE_NUM: nat := 1024
  const NDIRECT: nat := 100
  const NINDIRECT: nat := 128
  const MAXFILE: nat := 228

  /** The first block `alloc_block` looks at. */
  const FIRST_DATA: nat := 1036

  /** How many blocks there are for file contents and indirect blocks. */
  const DATA_NUM: nat := 31732

  /** The largest file size one indirect block can describe. */
  const MAX_SIZE: nat := 116736

  /** The block that stores inode `i`: superblock, bitmap and inode table precede the data. */
  function IBlock(i: nat): nat {
    11 + i
  }

  /** The figures above are those of the macros, for a disk of 16 MiB and ids of four bytes. */
  lemma Figures(i: nat)
    ensures BLOCK_NUM == 1024 * 1024 * 16 / BLOCK_SIZE
    ensures NINDIRECT == BLOCK_SIZE / 4 && MAXFILE == NDIRECT + NINDIRECT
    ensures IBlock(i) == BLOCK_NUM / (BLOCK_SIZE * 8) + i / 1 + 3
    ensures FIRST_DATA == IBlock(INODE_NUM) + 1 && DATA_NUM == BLOCK_NUM - FIRST_DATA
    ensures MAX_SIZE == MAXFILE * BLOCK_SIZE
  {
  }

  predicate IsDataBlock(id: int) {
    FIRST_DATA <= id < BLOCK_NUM
  }

  /** Blocks needed for `size` bytes, size > 0. */
  function BlocksFor(size: nat): (n: nat)
    requires size > 0
    ensures (n - 1) * BLOCK_SIZE < size <= n * BLOCK_SIZE
  {
    (size - 1) / BLOCK_SIZE + 1
  }
}
