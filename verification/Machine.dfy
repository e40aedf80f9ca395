/** Machine words and bytes. */
module Machine {
  const UINT32_MAX: nat := 0xFFFF_FFFF
  const UINT64_MAX: nat := 0xFFFF_FFFF_FFFF_FFFF
  const WORD: nat := 0x1_0000_0000

  type byte = b: int | 0 <= b < 256
  type uint16 = x: nat | x < 0x1_0000
  type uint32 = x: nat | x <= UINT32_MAX
  type uint64 = x: nat | x <= UINT64_MAX

  function Max(a: int, b: int): (m: int)
    ensures a <= m && b <= m && (m == a || m == b)
  {
    if a > b then a else b
  }

  function Min(a: int, b: int): (m: int)
    ensures m <= a && m <= b && (m == a || m == b)
  {
    if a < b then a else b
  }

  /** A word of four bytes, the highest first. */
  function Word(b3: int, b2: int, b1: int, b0: int): int {
    0x100_0000 * b3 + 0x1_0000 * b2 + 0x100 * b1 + b0
  }

  function ByteSum(bs: seq<byte>): nat {
    if bs == [] then 0 else ByteSum(bs[..|bs| - 1]) + bs[|bs| - 1]
  }

  lemma SumAppend(bs: seq<byte>, b: byte)
    ensures ByteSum(bs + [b]) == ByteSum(bs) + b
  {
    assert (bs + [b])[..|bs|] == bs;
  }
}
