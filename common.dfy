/** Small definitions shared by several models: the optional result of the
    searches, and the integer and sequence helpers more than one source file
    needs. */
module Common {
  datatype Option<T> = None | Some(value: T)

  /** `std::abs` and Python's `abs` on integers. */
  function Abs(x: int): nat
  {
    if x < 0 then -x else x
  }

  /** Python's `min` on two naturals. */
  function Min(a: nat, b: nat): nat
  {
    if a <= b then a else b
  }

  /** The index a boolean has as a C++ `bool` or a Python `int(b)`. */
  function Index(b: bool): nat
  {
    if b then 1 else 0
  }

  /** The prefix of length i + 1 extends the prefix of length i by s[i]. */
  lemma PrefixStep<T>(s: seq<T>, i: nat)
    requires i < |s|
    ensures s[..i + 1] == s[..i] + [s[i]]
  {
  }
}
