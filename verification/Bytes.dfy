/** Bytes, the two result datatypes and the few functions several modules use. */
module Bytes {
  type byte = b: int | 0 <= b < 256

  datatype Option<+T> = None | Some(value: T)

  datatype Result<+T, +E> = Ok(value: T) | Err(error: E)

  function Min(a: nat, b: nat): nat {
    if a < b then a else b
  }

  /** The same places, counted from further on. */
  lemma Resliced(s: seq<byte>, at: nat, from: nat, to: nat)
    requires at <= from <= to <= |s|
    ensures s[at..][from - at..to - at] == s[from..to] && s[at..][to - at..] == s[to..]
  {
  }

  /** What a loop has, in front of what is still to come, if anything can. */
  function Prepend<T>(xs: seq<T>, r: Option<seq<T>>): Option<seq<T>> {
    match r
    case None => None
    case Some(more) => Some(xs + more)
  }

  lemma PrependNothing<T>(r: Option<seq<T>>)
    ensures Prepend([], r) == r
  {
    if r.Some? {
      assert [] + r.value == r.value;
    }
  }
}
