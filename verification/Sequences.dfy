/** Sequence functions shared by the audit buffer and the transition history */
module Sequences {
  /** The last `n` elements, or all of them when there are fewer */
  function LastN<T>(s: seq<T>, n: nat): seq<T> {
    if |s| <= n then s else s[|s| - n..]
  }

  /** A window that takes one element and is cut again is the window on the longer sequence. */
  lemma LastNSnoc<T>(s: seq<T>, x: T, n: nat)
    ensures LastN(LastN(s, n) + [x], n) == LastN(s + [x], n)
  {
  }

  lemma LastNOfNone<T>(n: nat)
    ensures LastN<T>([], n) == []
  {
  }
}
