/** Small definitions that every component uses. */
module Common {
  datatype Option<+T> = None | Some(value: T)

  /** A byte as a number; the hashes work on bytes as machine words instead. */
  type Octet = b: int | 0 <= b < 256

  const U32: nat := 0x1_0000_0000

  function Last<T>(s: seq<T>): T
    requires s != []
  {
    s[|s| - 1]
  }

  function Front<T>(s: seq<T>): seq<T>
    requires s != []
  {
    s[..|s| - 1]
  }

  function One(b: bool): nat { if b then 1 else 0 }

  predicate AllBelow(s: seq<nat>, n: nat) { forall i :: 0 <= i < |s| ==> s[i] < n }
}
