/** Bytes, 512-byte sectors and the addresses of sectors on block devices. */
module Sectors {
  type byte = x: int | 0 <= x < 256

  const SECTOR_SIZE := 512

  const ZERO_SECTOR: seq<byte> := seq(SECTOR_SIZE, _ => 0)

  type Sector = s: seq<byte> | |s| == SECTOR_SIZE witness ZERO_SECTOR

  /** A sector of one of the block devices: (BlockDevice_t*, secno) in the C code. */
  datatype Key = Key(dev: nat, sec: nat)
}
