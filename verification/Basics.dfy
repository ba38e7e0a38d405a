/** What several parts share. */
module Basics {

  datatype Option<T> = None | Some(value: T)

  type Byte = b: int | 0 <= b < 256

  /** A sequence without the element at `i`. */
  function Without<T>(s: seq<T>, i: int): (r: seq<T>)
    requires 0 <= i < |s|
    ensures |r| == |s| - 1
  {
    s[..i] + s[i + 1..]
  }

  function Repeated<T>(x: T, n: nat): (s: seq<T>)
    ensures |s| == n && forall i :: 0 <= i < n ==> s[i] == x
  {
    if n == 0 then [] else [x] + Repeated(x, n - 1)
  }

  function Min(a: int, b: int): int {
    if a < b then a else b
  }

  function Max(a: nat, b: nat): nat {
    if a > b then a else b
  }

  // ---------- decimal numbers, as characters ----------

  predicate IsDigit(c: Byte) {
    48 <= c <= 57
  }

  /** A number that is not negative, in decimal. */
  function Digits(n: nat): (s: seq<Byte>)
    ensures s != [] && forall c :: c in s ==> IsDigit(c)
  {
    if n < 10 then [48 + n] else Digits(n / 10) + [48 + n % 10]
  }

  /** The character between the parts of a name. */
  const DOT: Byte := 46
}
