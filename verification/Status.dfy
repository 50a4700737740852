// Result codes, end markers and sizes of src/nftp.h.
module Status {
  const OK := 0
  const ERR_FILEPATH := 2
  const ERR_FILENAME := 3
  const ERR_BLOCKS := 4
  const ERR_ID := 5
  const ERR_OVERFLOW := 9
  const ERR_EMPTY := 10
  const ERR_PROTO := 11
  const ERR_VEC := 13
  const ERR_IOVS := 14
  const ERR_FLAG := 15
  const ERR_STREAM := 16
  const ERR_HT := 17
  const ERR_TYPE := 18

  const STATUS_HELLO := 1
  const STATUS_TRANSFER := 3
  const STATUS_END := 4
  const STATUS_FINISH := 5

  const HEAD := -1
  const TAIL := 0x7FFF_FFFF
  const SIZE: nat := 32
  // Most files received at once, and the size of the callback registry.
  const FILES: nat := 32
  // Most blocks a HELLO can announce.
  const BLOCK_NUM: nat := 0xFFFF
}
