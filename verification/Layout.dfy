/** On-disk geometry and the records every layer shares
    (include/ufs_internal.h, include/userfs.h). */
module Layout {
  const BLOCK_SIZE: nat := 512
  const TOTAL_BLOCKS: nat := 32768
  const MAX_INODES: nat := 512
  const ROOT_INODE: nat := 0
  const INODE_SIZE: nat := 128
  const DIRENT_SIZE: nat := 64
  const DIRECT_BLOCKS: nat := 8
  const PTRS_PER_BLOCK: nat := 128
  const MAX_FILE_BLOCKS: nat := 16520
  const MAX_NAME: nat := 31
  const MAX_PATH: nat := 255

  const SUPERBLOCK_BLK: nat := 0
  const INODE_BITMAP_BLK: nat := 1
  const BLOCK_BITMAP_BLK: nat := 2
  const BLOCK_BITMAP_BLOCKS: nat := 8
  const INODE_TABLE_START: nat := 10
  const INODE_TABLE_BLOCKS: nat := 128
  const JOURNAL_START: nat := 138
  const JOURNAL_BLOCKS: nat := 2048
  const JOURNAL_COMMIT: nat := 2185
  const DATA_START: nat := 2186
  const DATA_BLOCKS: nat := 30582

  type byte = x: int | 0 <= x < 256
  type u32 = x: int | 0 <= x < 0x1_0000_0000
  type u64 = x: int | 0 <= x < 0x1_0000_0000_0000_0000

  const INVALID: u32 := 0xFFFF_FFFF

  const TYPE_FREE: u32 := 0
  const TYPE_FILE: u32 := 1
  const TYPE_DIR: u32 := 2
  const TYPE_SYMLINK: u32 := 3

  type Bytes = seq<byte>
  type Block = b: seq<byte> | |b| == BLOCK_SIZE witness seq(BLOCK_SIZE, _ => 0)
  type Image = img: seq<Block> | |img| == TOTAL_BLOCKS
    witness seq<Block>(TOTAL_BLOCKS, _ => ZeroBlock())

  type Words = seq<u32>
  type WordBlock = w: seq<u32> | |w| == PTRS_PER_BLOCK witness seq(PTRS_PER_BLOCK, _ => 0)
  type Direct = d: seq<u32> | |d| == DIRECT_BLOCKS witness seq(DIRECT_BLOCKS, _ => 0)
  /** Three 16-byte time stamps, four words each; their values are never interpreted. */
  type Times = t: seq<u32> | |t| == 12 witness seq(12, _ => 0)

  datatype Inode = Inode(
    itype: u32, flags: u32, mode: u32, uid: u32, gid: u32, links: u32,
    size: u64, blockCount: u32, direct: Direct, single: u32, double: u32,
    generation: u32, times: Times)

  datatype Error = EINVAL | ENOSPC | EFBIG | ENOENT | EEXIST | ENOTDIR | EISDIR | ENOTEMPTY | EPERM
                 | EMLINK | EBUSY | EBADF | EACCES | EIO | ENAMETOOLONG | ELOOP | EMFILE | ENOMEM | ESTALE | ENODEV

  datatype Result<+T> = Ok(value: T) | Err(error: Error)

  function ZeroBlock(): Block { seq(BLOCK_SIZE, _ => 0) }

  /** An inode with every pointer invalid (src/userfs.c, ufs_init_inode). */
  function InitInode(itype: u32): (ino: Inode)
    ensures ino.direct == seq(DIRECT_BLOCKS, _ => INVALID)
  {
    Inode(itype, 0, 0, 0, 0, 0, 0, 0, seq(DIRECT_BLOCKS, _ => INVALID), INVALID, INVALID, 0, seq(12, _ => 0))
  }

  predicate InJournal(b: int) { JOURNAL_START <= b < JOURNAL_START + JOURNAL_BLOCKS }
  predicate InData(b: int) { DATA_START <= b < TOTAL_BLOCKS }

  function Min(a: int, b: int): int { if a < b then a else b }
  function Max(a: int, b: int): int { if a < b then b else a }
  function CeilDiv(a: nat, b: nat): nat requires b > 0 { (a + b - 1) / b }
}
