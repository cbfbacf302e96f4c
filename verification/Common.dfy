/** Types and a set fact shared by all modules. */
module Common {
  datatype Option<+T> = None | Some(value: T)

  type byte = x: int | 0 <= x < 256

  const U32_RANGE: nat := 0x1_0000_0000

  type u32 = x: int | 0 <= x < 0x1_0000_0000

  lemma {:induction false} SubsetSize<T>(a: set<T>, b: set<T>)
    requires a <= b
    ensures |a| <= |b|
    decreases |a|
  {
    if x :| x in a {
      SubsetSize(a - {x}, b - {x});
    }
  }
}
