/** Optional values, as Rust's `Option` and Python's `None` default. */
module Wrappers {
  datatype Option<+T> = None | Some(value: T)
}

/** Octets and the few helpers over octet strings that the other modules share. */
module Bytes {
  newtype byte = x: int | 0 <= x < 256

  /** Number of occurrences of `b` in `s`. */
  function Count(s: seq<byte>, b: byte): (n: nat)
    ensures n <= |s|
  {
    if |s| == 0 then 0 else (if s[0] == b then 1 else 0) + Count(s[1..], b)
  }

  /** The octets of an ASCII text literal (its UTF-8 encoding). */
  function Ascii(s: string): (r: seq<byte>)
    requires forall i :: 0 <= i < |s| ==> s[i] < 128 as char
    ensures |r| == |s|
    ensures forall i :: 0 <= i < |s| ==> r[i] as int == s[i] as int
  {
    seq(|s|, i requires 0 <= i < |s| => s[i] as int as byte)
  }
}
