/** Bytes and the two result types shared by every codec module. */
module Prelude {

  type byte = x: int | 0 <= x < 256

  type uint32 = x: int | 0 <= x < 0x1_0000_0000

  type uint64 = x: int | 0 <= x < 0x1_0000_0000_0000_0000

  type int64 = x: int | -0x8000_0000_0000_0000 <= x < 0x8000_0000_0000_0000

  datatype Option<+T> = None | Some(value: T) {

    predicate IsFailure() {
      None?
    }

    function PropagateFailure<U>(): Option<U>
      requires None?
    {
      None
    }

    function Extract(): T
      requires Some?
    {
      value
    }
  }

  /** What a reader makes of the front of a byte window: a value and the bytes it left. */
  datatype Parsed<+T> = Fail | Got(value: T, rest: seq<byte>) {

    predicate IsFailure() {
      Fail?
    }

    function PropagateFailure<U>(): Parsed<U>
      requires Fail?
    {
      Fail
    }

    function Extract(): (T, seq<byte>)
      requires Got?
    {
      (value, rest)
    }

    /** The same result with `q` appended to what is left. */
    function More(q: seq<byte>): Parsed<T> {
      match this
      case Fail => Fail
      case Got(v, r) => Got(v, r + q)
    }
  }
}
