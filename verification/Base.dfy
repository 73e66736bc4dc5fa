/** What several parts share: the size of a sector and of the file server's buffer, the null pointer, minimum and
    maximum. */
module Base {

  const SECTOR_SIZE := 512
  const FSBUF_SIZE := 0x100000

  /** The null pointer; pointers to table slots are their numbers. */
  const NIL := -1

  function Min(a: int, b: int): int { if a < b then a else b }
  function Max(a: int, b: int): int { if a < b then b else a }
}
