/** Options, results, bytes and machine words. */
module Basics {
  datatype Option<+T> = None | Some(value: T)

  datatype Result<+T, +E> = Ok(value: T) | Err(error: E)

  type Byte = b: int | 0 <= b < 256

  const TWO63: int := 0x8000_0000_0000_0000
  const TWO64: int := 0x1_0000_0000_0000_0000

  const I64_MIN := -TWO63
  const I64_MAX := TWO63 - 1

  /** A signed 64-bit machine word. */
  type Word = n: int | I64_MIN <= n <= I64_MAX

  /** Two's complement reduction of an `i64` result in wrapping arithmetic. */
  function I64(x: int): (r: int)
    ensures -TWO63 <= r < TWO63
    ensures -TWO63 <= x < TWO63 ==> r == x
  {
    (x + TWO63) % TWO64 - TWO63
  }

  predicate FitsI64(x: int) {
    -TWO63 <= x < TWO63
  }

  /** The last element of the right part is the last of the whole. */
  lemma JoinLast<T>(s: seq<T>, t: seq<T>)
    requires t != []
    ensures t == t[..|t| - 1] + [t[|t| - 1]]
    ensures s + t == s + t[..|t| - 1] + [t[|t| - 1]]
  {
  }

  function Reversed<T>(s: seq<T>): (r: seq<T>)
    ensures |r| == |s|
    ensures forall i | 0 <= i < |s| :: r[i] == s[|s| - 1 - i]
  {
    if s == [] then [] else [s[|s| - 1]] + Reversed(s[..|s| - 1])
  }
}
