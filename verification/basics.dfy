/** Small value types shared by the rest of the model. */
module Basics {

  /** A value that may be absent; `None` stands for a C# `null`. */
  datatype Option<+T> = None | Some(value: T)

  /** How a callback of the program ends: it reports a value, it reports the
      program's own failure code, or an exception escapes it. */
  datatype Outcome<+T> = Done(value: T) | Failed | Threw

  /** An unsigned 8-bit value, as in a .NET `byte`. */
  newtype byte = x: int | 0 <= x < 256

  /** Number of occurrences of `x` in `s`. */
  function Count<T(==)>(s: seq<T>, x: T): nat
  {
    if |s| == 0 then 0
    else (if s[0] == x then 1 else 0) + Count(s[1..], x)
  }

  lemma {:induction false} CountAppend<T>(a: seq<T>, b: seq<T>, x: T)
    ensures Count(a + b, x) == Count(a, x) + Count(b, x)
  {
    if |a| == 0 {
      assert a + b == b;
    } else {
      assert (a + b)[1..] == a[1..] + b;
      CountAppend(a[1..], b, x);
    }
  }
}
