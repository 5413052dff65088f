/** Types and functions shared by the modules. */
module Basics {
  /** The sizes of an int, an unsigned int, and a size_t or u64. */
  const INTS: int := 0x8000_0000
  const UINTS: int := 0x1_0000_0000
  const SIZES: int := 0x1_0000_0000_0000_0000

  newtype byte = x: int | 0 <= x < 256

  datatype Option<T> = None | Some(value: T)

  function Min(a: nat, b: nat): nat {
    if a <= b then a else b
  }

  lemma SubsetSize<T>(a: set<T>, b: set<T>)
    requires a <= b
    ensures |a| <= |b| && (|a| == |b| <==> a == b)
  {
    assert b == a + (b - a);
    assert |b| == |a| + |b - a|;
  }
}
