/** Byte strings and the outcome types shared by every module. */
module Prelude {
  datatype Option<+T> = None | Some(value: T)

  /** A Rust `Result` whose error text is not modelled. */
  datatype Result<+T> = Ok(value: T) | Err

  type Byte = b: int | 0 <= b < 0x100

  type Bytes = seq<Byte>

  /** Largest value of a 64-bit machine word, plus one. */
  const U64: int := 0x1_0000_0000_0000_0000

  function Min(a: int, b: int): (m: int) {
    if a <= b then a else b
  }

  function Concat<T>(parts: seq<seq<T>>): seq<T> {
    if parts == [] then [] else parts[0] + Concat(parts[1..])
  }

  lemma {:induction false} ConcatAppend<T>(a: seq<seq<T>>, b: seq<seq<T>>)
    ensures Concat(a + b) == Concat(a) + Concat(b)
  {
    if a == [] {
      assert a + b == b;
    } else {
      assert (a + b)[1..] == a[1..] + b;
      ConcatAppend(a[1..], b);
    }
  }
}
