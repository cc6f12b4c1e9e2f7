/** A value that may be missing. */
module Options {
  datatype Option<T> = None | Some(value: T) {
    function UnwrapOr(other: T): T {
      if Some? then value else other
    }
  }
}

/** Sequences of one repeated value. */
module Sequences {
  function Repeat<T>(n: nat, x: T): (r: seq<T>)
    ensures |r| == n
    ensures forall i :: 0 <= i < n ==> r[i] == x
  {
    seq(n, _ => x)
  }
}
