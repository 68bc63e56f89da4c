/** What the other modules share: optional values, C characters and integers, and two laws of sequences. */
module Sequences {
  datatype Option<T> = None | Some(value: T)

  /** The byte that terminates a C string. */
  const NUL: char := 0 as char

  /** The C value of a small difference of unsigned integers. */
  function Unsigned(n: int): int {
    if n < 0 then n + 0x1_0000_0000 else n
  }

  lemma Associative<T>(p: seq<T>, q: seq<T>, r: seq<T>)
    ensures (p + q) + r == p + (q + r)
  {
  }

  lemma Slices<T>(a: seq<T>, i: int, p: int, q: int)
    requires 0 <= i <= p <= q <= |a|
    ensures a[i..p] + a[p..q] == a[i..q]
  {
  }
}
