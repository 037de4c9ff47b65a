/** Unsigned machine words. */
module Words {

  const U64: nat := 0x1_0000_0000_0000_0000

  type Word64 = n: nat | n < 0x1_0000_0000_0000_0000

  type Word32 = n: nat | n < 0x1_0000_0000

  /** What 64-bit arithmetic leaves of a result. */
  function Wrap(n: int): Word64 { n % U64 }

  function Wrap32(n: nat): Word32 { n % 0x1_0000_0000 }

  lemma WrapIsId(n: int)
    requires 0 <= n < U64
    ensures Wrap(n) == n
  {
  }
}
