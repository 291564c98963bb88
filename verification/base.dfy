/** Small shared vocabulary: bytes and an optional value. */
module Base {

  /** One octet, as written on a socket or read from a file. */
  type byte = b: int | 0 <= b < 256

  /** Rust's Option, for the standard-library calls that may yield nothing. */
  datatype Option<+T> = None | Some(value: T) {

    /** The wrapped value, or `default` when there is none (Rust's unwrap_or). */
    function GetOr(default: T): (r: T)
      ensures Some? ==> r == value
      ensures None? ==> r == default
    {
      match this
      case Some(v) => v
      case None => default
    }
  }

  /** Concatenation regrouped; stated once so that proofs can call it cheaply. */
  lemma AppendAssoc<T>(a: seq<T>, b: seq<T>, c: seq<T>)
    ensures a + (b + c) == (a + b) + c
  {
  }

  /** A prefix of a sequence is a prefix of anything that extends it. */
  lemma PrefixAppend<T>(a: seq<T>, b: seq<T>, c: seq<T>)
    requires a <= b
    ensures a <= b + c
  {
    assert (b + c)[..|a|] == b[..|a|];
  }
}
