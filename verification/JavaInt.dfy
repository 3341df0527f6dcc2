/** Java's 32-bit int. */
module JavaInt {
  const MAX_INT: int := 0x7fff_ffff

  type Int32 = n: int | -0x8000_0000 <= n <= MAX_INT

  function Wrap32(n: int): Int32 {
    (n + 0x8000_0000) % 0x1_0000_0000 - 0x8000_0000
  }

  /** Adding to a wrapped int wraps like adding to the unbounded one. */
  lemma WrapsOnce(n: int, k: int)
    ensures Wrap32(Wrap32(n) + k) == Wrap32(n + k)
  {
    var q := (n + 0x8000_0000) / 0x1_0000_0000;
    assert Wrap32(n) == n - 0x1_0000_0000 * q;
    assert (n + k + 0x8000_0000 - 0x1_0000_0000 * q) % 0x1_0000_0000 == (n + k + 0x8000_0000) % 0x1_0000_0000;
  }
}
