/** 32-bit words and their arithmetic. */
module Words {
  const WORD: nat := 0x1_0000_0000

  function Min(a: int, b: int): int {
    if a < b then a else b
  }

  function Max(a: int, b: int): int {
    if a < b then b else a
  }

  predicate IsInt(x: int) {
    -0x8000_0000 <= x < 0x8000_0000
  }

  /** Conversion to an unsigned 32-bit value. */
  function U32(x: int): (u: nat)
    ensures u < WORD
    ensures 0 <= x < WORD ==> u == x
    ensures -0x1_0000_0000 <= x < 0 ==> u == x + 0x1_0000_0000
  {
    x % WORD
  }

  /** Conversion to a signed 32-bit value. */
  function Int32(x: int): (y: int)
    ensures IsInt(y)
    ensures IsInt(x) ==> y == x
  {
    (x + 0x8000_0000) % WORD - 0x8000_0000
  }

  /** Adding words step by step is adding first. */
  lemma AddWords(x: int, y: int)
    ensures U32(U32(x) + y) == U32(x + y)
    ensures Int32(U32(x)) == Int32(x)
  {
  }
}

/** Error numbers of newlib. */
module Errno {
  const EIO: int := 5
  const EWOULDBLOCK: int := 11
  const EACCES: int := 13
  const ENODEV: int := 19
  const EINVAL: int := 22
  const EMFILE: int := 24
  const ENOTTY: int := 25
  const EBADFD: int := 77
  const ENOSYS: int := 88
  const ENOTSUP: int := 134
}
